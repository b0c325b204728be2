/**
 * The request contract stated independently of the view: an ordered list of
 * checks on an object body where the first failing check decides the label.
 * The lemmas relate the view (`IntentView.Respond`) to this list, and state
 * what Python's semantics make of bodies that are not objects.
 */
module ValidationPipeline {
  import opened Wrappers
  import opened PyJson
  import opened IntentView

  /** One check of the validation contract. */
  datatype Check = BodyPresent | TextPresent | TextIsString | TextNonEmpty

  /** The checks, in the order the contract applies them. */
  const Checks: seq<Check> := [BodyPresent, TextPresent, TextIsString, TextNonEmpty]

  /** Whether the object body `m` passes `c`, taken on its own. */
  predicate Passes(c: Check, m: map<string, Json>)
  {
    match c
    case BodyPresent => |m| != 0
    case TextPresent => "text" in m
    case TextIsString => "text" in m ==> m["text"].JString?
    case TextNonEmpty => "text" in m ==> m["text"] != JString("")
  }

  /** The label a request is rejected with when it fails `c`. */
  function FailureLabel(c: Check): Label
  {
    match c
    case BodyPresent => BodyMissing
    case TextPresent => TextMissing
    case TextIsString => InvalidType
    case TextNonEmpty => TextEmpty
  }

  /** The label of the first check in `checks` that `m` fails, if any. */
  function FirstFailure(checks: seq<Check>, m: map<string, Json>): (r: Option<Label>)
    ensures r.None? <==> forall i :: 0 <= i < |checks| ==> Passes(checks[i], m)
    ensures r.Some? ==> exists i :: && 0 <= i < |checks| && !Passes(checks[i], m)
                                    && r.value == FailureLabel(checks[i])
                                    && forall j :: 0 <= j < i ==> Passes(checks[j], m)
  {
    if checks == [] then None
    else if !Passes(checks[0], m) then Some(FailureLabel(checks[0]))
    else
      var r := FirstFailure(checks[1..], m);
      assert forall i :: 1 <= i < |checks| ==> checks[i] == checks[1..][i - 1];
      r
  }

  /**
   * On object bodies the view is the contract: the first failing check's
   * label and message with status 400, and a request that passes every
   * check carries a validated text.
   */
  lemma {:induction false} ObjectBodiesFollowChecks<C>(m: map<string, Json>, predict: string -> Prediction<C>, error: string)
    ensures FirstFailure(Checks, m).Some? ==>
              Respond(Decoded(JObject(m)), predict, error) == Reject(FirstFailure(Checks, m).value)
    ensures FirstFailure(Checks, m).None? <==> exists t :: Carries(Decoded(JObject(m)), t)
  {
    var body := Decoded(JObject(m));
    if |m| == 0 {
      assert !Passes(Checks[0], m);
    } else if "text" !in m {
      assert Passes(Checks[0], m) && !Passes(Checks[1], m);
    } else if !m["text"].JString? {
      assert Passes(Checks[0], m) && Passes(Checks[1], m) && !Passes(Checks[2], m);
    } else if m["text"] == JString("") {
      assert Passes(Checks[0], m) && Passes(Checks[1], m) && Passes(Checks[2], m) && !Passes(Checks[3], m);
    } else {
      assert forall i :: 0 <= i < |Checks| ==> Passes(Checks[i], m);
      assert Carries(body, m["text"].s);
    }
  }

  /** The classifier's answer matters only at the validated text. */
  lemma PredictorSeenOnlyAtValidText<C>(body: Body, p: string -> Prediction<C>, q: string -> Prediction<C>, error: string)
    requires forall t :: Carries(body, t) ==> p(t) == q(t)
    ensures Respond(body, p, error) == Respond(body, q, error)
  {
  }

  /** A 400 answer is the same whatever the classifier would have said: it is never consulted. */
  lemma RejectionIgnoresClassifier<C>(body: Body, p: string -> Prediction<C>, q: string -> Prediction<C>, error: string)
    ensures Respond(body, p, error).status == 400 ==> Respond(body, q, error) == Respond(body, p, error)
  {
  }

  /**
   * A truthy body that is not an object: a list or string that "contains"
   * `"text"` (element or substring) escapes on the subscription, one that
   * does not is `TEXT_MISSING`, and a number or `true` escapes on `in`.
   */
  lemma NonObjectBodies<C>(v: Json, predict: string -> Prediction<C>, error: string)
    requires Truthy(v) && !v.JObject?
    ensures v.JArray? ==>
              Respond(Decoded(v), predict, error) ==
              if JString("text") in v.elems then InternalErrorReply(error) else Reject(TextMissing)
    ensures v.JString? ==>
              Respond(Decoded(v), predict, error) ==
              if IsSubstring("text", v.s) then InternalErrorReply(error) else Reject(TextMissing)
    ensures v.JBool? || v.JNumber? ==> Respond(Decoded(v), predict, error) == InternalErrorReply(error)
  {
  }

  /** Bodies named in the contract, and two that Python treats its own way. */
  lemma Scenarios<C>(predict: string -> Prediction<C>, error: string)
    ensures Respond(Decoded(JObject(map[])), predict, error).errorLabel == BodyMissing
    ensures Respond(Decoded(JObject(map["text" := JNumber(5.0)])), predict, error).errorLabel == InvalidType
    ensures Respond(Decoded(JObject(map["text" := JString("")])), predict, error).errorLabel == TextEmpty
    ensures Respond(Decoded(JArray([JString("hello")])), predict, error).errorLabel == TextMissing
    ensures Respond(Decoded(JString("context")), predict, error).status == 500
  {
    assert "text" <= "context"[3..];
  }
}
