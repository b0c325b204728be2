# Intent classifier service — verified model

A Dafny model of `server.py`, the Flask service that puts an intent
classifier behind HTTP. The model covers the three pieces of logic in that
file:

- the `/intent` view (`intent()`): validation of the decoded request body in
  a fixed first-failure-wins order, with Python's own semantics for
  truthiness, `in` and subscription, then dispatch to the classifier's
  `predict`, whose answer is relayed unchanged;
- the 500 handler (`internal_error()`): `INTERNAL_ERROR` with the error's
  string, or `"Internal server error."` when that string is empty;
- the readiness probe (`ready()`) and the startup sequence of `main()`: the
  global `model` handle is assigned, loaded and checked, and the service
  serves only when the loaded handle reports ready.

The classifier is opaque: `predict` is a parameter (a function from text to
a ranked list of `IntentPrediction`s, or a failure), `load` and `is_ready`
are the booleans `loadSucceeds` and `readyAfterLoad` given to `Startup`, and
confidences have an opaque type parameter `C`.

Files:

- `wrappers.dfy` — `Option`.
- `pyjson.dfy` — decoded JSON values and Python's truth value, `in` and
  string subscription on them.
- `intent.dfy` — labels, messages and responses; the view `Intent`, the 500
  handler `InternalErrorReply`, and `Respond`, what the client receives.
- `pipeline.dfy` — the request contract stated independently as an ordered
  list of checks, and lemmas relating the view to it.
- `lifecycle.dfy` — class `Service` with the global handle, the probe, the
  startup sequence and request routing.

### Behaviour of `server.py` worth noting

- The view applies `not data`, `'text' in data` and `data['text']` to
  whatever JSON value arrives, not only to objects: `[]`, `""`, `0`, `false`
  and `null` are `BODY_MISSING`; a list without the element `"text"` or a
  string without the substring `"text"` is `TEXT_MISSING`; a list holding
  `"text"`, a string containing it (`"context"`), a non-zero number and
  `true` raise `TypeError`, which `except BadRequest` does not catch, so they
  reach the 500 handler. `NonObjectBodies` states this. On object bodies the
  view is exactly an ordered list of checks where the first failure decides
  the label (`ObjectBodiesFollowChecks`).
- There is no explicit service-state variable: the state is the global
  `model` (`None`, then a handle that is assigned before `load` is called,
  so it stays assigned when `load` fails) and whether `app.run` is reached,
  modelled as `serving`.
- The routes are registered when the module is imported (server.py:14, 21),
  but requests are served only once `app.run` (server.py:67) runs, which
  happens after the handle is ready. `ready()` still has a 423 branch for a
  missing or unready handle, and `Ready` models that logic.

## Model

| member | source | states |
|---|---|---|
| `PyJson.PyIn` | server.py:27 | `'text' in data` raises `TypeError` exactly for `null`, booleans and numbers; on an object it is key membership, on a list element membership, on a string a substring test |
| `PyJson.PySubscript` | server.py:29-31 | `data['text']` yields a value exactly when the body is an object holding the key, and that value is the field; any non-object raises `TypeError` |
| `IntentView.Intent` | server.py:21-40 | the view only answers 400 with a client-error label or 200 with intents; a decode failure is caught as `BAD_REQUEST`; object bodies never raise a Python error; for a validated text the classifier's intents are relayed unchanged and its failure escapes; a 200 always comes from a validated text |
| `IntentView.InternalErrorReply` | server.py:42-47 | 500 `INTERNAL_ERROR` whose message is the error string when non-empty and `"Internal server error."` otherwise, so never empty |
| `IntentView.Respond` | server.py:21-47 | per request: decode failure gives 400 `BAD_REQUEST` "Invalid JSON format."; a falsy body 400 `BODY_MISSING`; a non-empty object without `text` 400 `TEXT_MISSING`; a non-string `text` 400 `INVALID_TYPE`; an empty `text` 400 `TEXT_EMPTY`; a validated text 200 with exactly `predict(text)`, or the 500 reply if `predict` fails; status is 200 iff the body carries a validated text and `predict` succeeds |
| `ValidationPipeline.FirstFailure` | server.py:25-32 | the result is none iff every check passes, and otherwise the label of a failing check all of whose predecessors pass |
| `ValidationPipeline.ObjectBodiesFollowChecks` | server.py:25-32 | on object bodies the response is the first failing check's 400 reply, and no check fails iff the body carries a validated text |
| `ValidationPipeline.PredictorSeenOnlyAtValidText` | server.py:36-40 | two classifiers that agree on the validated text yield the same response: `predict` is consulted only with that text |
| `ValidationPipeline.RejectionIgnoresClassifier` | server.py:23-37 | every 400 response is the same whatever the classifier is: `predict` is never invoked on a rejected request |
| `ValidationPipeline.NonObjectBodies` | server.py:25-31 | a truthy list or string is 500 when it contains `"text"` as element or substring and `TEXT_MISSING` otherwise; a truthy number or boolean is 500 |
| `ValidationPipeline.Scenarios` | server.py:25-32 | `{}` is `BODY_MISSING`, `{"text": 5}` `INVALID_TYPE`, `{"text": ""}` `TEXT_EMPTY`, `["hello"]` `TEXT_MISSING`, `"context"` 500 |
| `Lifecycle.Service.constructor` | server.py:11-12 | at process start there is no handle and nothing is served |
| `Lifecycle.Service.Ready` | server.py:14-19 | 200 "OK" iff a handle exists and reports ready, else 423 "Not ready"; a function of the state, so it changes nothing; always 200 while serving |
| `Lifecycle.Service.Startup` | server.py:57-67 | the handle is assigned before loading and stays assigned; serving is reached iff `load` returns and the handle then reports ready; a load failure aborts with `LoadRaised`, an unready handle with `NotReady`; afterwards the probe answers 200 iff serving |
| `Lifecycle.Service.HandleIntent` | server.py:21-40 | a request is answered only while serving, by the view with the loaded handle's `predict`; a 200 carries exactly the intents that handle predicted for a validated text |

## Left out

- Flask routing, `request.get_json` decoding (including its content-type handling) and `jsonify`: the decode result is an input (`Body`), responses are values.
- `argparse`, the `PORT` variable, `print` and `app.run(debug=True, …)` (server.py:52-55, 63, 67): configuration and I/O; the model path given to `load` is not represented.
- The classifier's internals (`IntentClassifier`, not part of this model): `load`, `is_ready` and `predict` are parameters, and confidences are opaque.
- The text of werkzeug's `InternalServerError` string: the 500 handler's error string is an input (`error`).
- Flask's debug mode propagates an unhandled exception to its debugger instead of calling the 500 handler; the model assumes the handler receives every exception that escapes the view.
- JSON numbers are reals: Python's non-standard `NaN` and `Infinity` (both truthy) are not representable.
- A handle is assumed truthy whenever it exists (`if model` at server.py:16 reads as `model is not None`).
- `Lifecycle.Service.Startup`: after `load` raises, the handle is taken to report not ready (a fresh `IntentClassifier()` is unready and the failed `load` is assumed not to change that), so the probe would answer 423; the source never answers `/ready` after an aborted startup, because `main()` raises before `app.run`.
- Concurrent requests and the thread-safety of the global handle: after startup it is only read.
- Re-entering `main()` while serving: `Startup` requires that the service is not yet serving, because `app.run` blocks and `main()` is never re-entered while serving; an exception raised by `argparse` (`SystemExit`) before the handle is assigned is not modelled.
