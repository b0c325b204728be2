/**
 * The process-wide classifier handle and its lifecycle: the readiness probe
 * `ready()`, the startup sequence of `main()` that assigns, loads and checks
 * the handle before serving, and the routing of `/intent` requests to the
 * loaded handle once serving.
 */
module Lifecycle {
  import opened Wrappers
  import opened PyJson
  import opened IntentView

  /**
   * The classifier handle as the service observes it: what `is_ready()`
   * reports, and its `predict`.
   */
  datatype Handle<C> = Handle(ready: bool, predict: string -> Prediction<C>)

  /** Why startup stopped before serving: `load` raised, or the handle is not ready. */
  datatype StartupFailure = LoadRaised | NotReady

  /** How `main()` ends: serving requests, or raising `InternalServerError`. */
  datatype StartupOutcome = Serving | Aborted(failure: StartupFailure)

  /** The answer of the readiness probe: body text and status. */
  datatype Probe = Probe(text: string, status: nat)

  /** The server process: the global `model` and whether `app.run` was reached. */
  class Service<C> {
    var model: Option<Handle<C>>
    var serving: bool

    /** Requests are served only with a handle that reports ready. */
    ghost predicate Valid()
      reads this
    {
      serving ==> model.Some? && model.value.ready
    }

    /** Process start: `model = None`, nothing served yet. */
    constructor ()
      ensures Valid() && model == None && !serving
    {
      model := None;
      serving := false;
    }

    /** The probe `ready()`: 200 "OK" exactly when a handle exists and reports ready. */
    function Ready(): (p: Probe)
      reads this
      ensures p.status == 200 <==> model.Some? && model.value.ready
      ensures p.status == 200 ==> p.text == "OK"
      ensures p.status != 200 ==> p == Probe("Not ready", 423)
      ensures Valid() && serving ==> p == Probe("OK", 200)
    {
      if model.Some? && model.value.ready then Probe("OK", 200) else Probe("Not ready", 423)
    }

    /**
     * The lifecycle part of `main()`: a fresh, unready handle is assigned to
     * `model`, then loaded (`loadSucceeds`: whether `load` returns, and
     * `readyAfterLoad`: what `is_ready()` reports afterwards). Serving starts
     * only when the loaded handle is ready; otherwise startup aborts with the
     * handle still assigned.
     */
    method Startup(loadSucceeds: bool, readyAfterLoad: bool, predict: string -> Prediction<C>)
      returns (outcome: StartupOutcome)
      requires Valid() && !serving
      modifies this
      ensures Valid()
      ensures model == Some(Handle(loadSucceeds && readyAfterLoad, predict))
      ensures serving <==> outcome == Serving
      ensures outcome == Serving <==> loadSucceeds && readyAfterLoad
      ensures !loadSucceeds ==> outcome == Aborted(LoadRaised)
      ensures loadSucceeds && !readyAfterLoad ==> outcome == Aborted(NotReady)
      ensures serving ==> Ready() == Probe("OK", 200)
      ensures !serving ==> Ready() == Probe("Not ready", 423)
    {
      model := Some(Handle(false, predict));
      if !loadSucceeds {
        outcome := Aborted(LoadRaised);
        return;
      }
      model := Some(model.value.(ready := readyAfterLoad));
      if !model.value.ready {
        outcome := Aborted(NotReady);
        return;
      }
      serving := true;
      outcome := Serving;
    }

    /**
     * An `/intent` request, routed only once serving: answered by the view
     * with the loaded handle's `predict`, where `error` is the string of any
     * exception that escapes the view.
     */
    method HandleIntent(body: Body, error: string) returns (r: Response<C>)
      requires Valid() && serving
      ensures r == Respond(body, model.value.predict, error)
      ensures r.status == 200 ==> exists t :: Carries(body, t) && model.value.predict(t) == Predicted(r.intents)
    {
      r := Respond(body, model.value.predict, error);
    }
  }
}
