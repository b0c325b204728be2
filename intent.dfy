/**
 * The `/intent` view function and the 500 error handler of the service:
 * validation of the decoded request body, dispatch to the classifier, and
 * the mapping of everything that escapes the view to `INTERNAL_ERROR`.
 *
 * The classifier's `predict` is a parameter: the model relays what it
 * returns and never looks inside a prediction (confidences stay opaque, of
 * type `C`).
 */
module IntentView {
  import opened PyJson

  /** What `request.get_json()` yields: a decode failure or a JSON value. */
  datatype Body = Malformed | Decoded(data: Json)

  /** One predicted intent as the classifier reports it: its label (`intent`; `label` is reserved in Dafny) and confidence. */
  datatype IntentPrediction<C> = IntentPrediction(intent: string, confidence: C)

  /** The outcome of `predict(text)`: the ranked intents, or an exception. */
  datatype Prediction<C> = Predicted(intents: seq<IntentPrediction<C>>) | PredictFailed

  /** The labels of the error taxonomy. */
  datatype Label = BodyMissing | TextMissing | InvalidType | TextEmpty | BadRequest | InternalError

  /** An HTTP response of `/intent`: an error object or the intents envelope. */
  datatype Response<C> =
    | ErrorReply(errorLabel: Label, message: string, status: nat)
    | IntentsReply(intents: seq<IntentPrediction<C>>, status: nat)

  /** What leaves the view function: a response, or an exception it did not catch. */
  datatype Outcome<C> = Replied(response: Response<C>) | Raised(fault: Fault)

  /** Exceptions that escape the view: a Python error on the body, or a failing classifier. */
  datatype Fault = BodyError(error: PyError) | ClassifierError

  /** The label as it appears in the JSON error object. */
  function LabelName(l: Label): string
  {
    match l
    case BodyMissing => "BODY_MISSING"
    case TextMissing => "TEXT_MISSING"
    case InvalidType => "INVALID_TYPE"
    case TextEmpty => "TEXT_EMPTY"
    case BadRequest => "BAD_REQUEST"
    case InternalError => "INTERNAL_ERROR"
  }

  /** The fixed message paired with each label; for `INTERNAL_ERROR`, the 500 handler's fallback. */
  function Message(l: Label): string
  {
    match l
    case BodyMissing => "Request body is missing."
    case TextMissing => "\"text\" missing from request body."
    case InvalidType => "\"text\" is not a string."
    case TextEmpty => "\"text\" is empty."
    case BadRequest => "Invalid JSON format."
    case InternalError => "Internal server error."
  }

  /** A 400 response carrying a client-error label and its message. */
  function Reject<C>(l: Label): Response<C>
  {
    ErrorReply(l, Message(l), 400)
  }

  /** The body is a JSON object whose "text" holds the non-empty string `text`. */
  predicate Carries(body: Body, text: string)
  {
    && body.Decoded? && body.data.JObject?
    && "text" in body.data.fields
    && body.data.fields["text"] == JString(text)
    && text != ""
  }

  /**
   * The view `intent()`: the checks of its `try` block in source order, each
   * with Python's semantics for the decoded value, then `predict` outside
   * the `try`. Only a decode failure is caught (`except BadRequest`); a
   * `TypeError` on the body and a failing classifier escape.
   */
  function Intent<C>(body: Body, predict: string -> Prediction<C>): (o: Outcome<C>)
    // the view itself only answers with client errors or with the intents
    ensures o.Replied? ==> (o.response.ErrorReply? && o.response.status == 400 && o.response.errorLabel != InternalError)
                           || (o.response.IntentsReply? && o.response.status == 200)
    // a decode failure is the one exception the view catches
    ensures body.Malformed? ==> o == Replied(Reject(BadRequest))
    // an object body never makes a Python operation raise
    ensures body.Decoded? && body.data.JObject? ==> o.Replied? || o.fault == ClassifierError
    // the classifier is asked exactly about a validated text, and its answer is relayed as is
    ensures forall t :: Carries(body, t) ==>
              o == match predict(t)
                   case Predicted(ps) => Replied(IntentsReply(ps, 200))
                   case PredictFailed => Raised(ClassifierError)
    ensures o.Replied? && o.response.IntentsReply? ==> exists t :: Carries(body, t)
  {
    match body
    case Malformed => Replied(Reject(BadRequest))
    case Decoded(data) =>
      if !Truthy(data) then Replied(Reject(BodyMissing))
      else match PyIn("text", data)
        case Raise(e) => Raised(BodyError(e))
        case Value(present) =>
          if !present then Replied(Reject(TextMissing))
          else match PySubscript(data, "text")
            case Raise(e) => Raised(BodyError(e))
            case Value(text) =>
              if !text.JString? then Replied(Reject(InvalidType))
              else if text.s == "" then Replied(Reject(TextEmpty))
              else match predict(text.s)
                case Predicted(ps) => Replied(IntentsReply(ps, 200))
                case PredictFailed => Raised(ClassifierError)
  }

  /**
   * The 500 handler `internal_error(error)`: the error's string when it has
   * one, else the fixed fallback, always under `INTERNAL_ERROR`.
   */
  function InternalErrorReply<C>(error: string): (r: Response<C>)
    ensures r.ErrorReply? && r.errorLabel == InternalError && r.status == 500
    ensures error != "" ==> r.message == error
    ensures error == "" ==> r.message == "Internal server error."
    ensures r.message != ""
  {
    ErrorReply(InternalError, if error != "" then error else Message(InternalError), 500)
  }

  /**
   * What the client receives for one `/intent` request: the view's response,
   * or the 500 handler's answer for an exception that escaped it, where
   * `error` is the escaped error's string.
   */
  function Respond<C>(body: Body, predict: string -> Prediction<C>, error: string): (r: Response<C>)
    ensures r.status in {200, 400, 500}
    ensures body.Malformed? ==> r == ErrorReply(BadRequest, "Invalid JSON format.", 400)
    ensures body.Decoded? && !Truthy(body.data) ==> r == ErrorReply(BodyMissing, "Request body is missing.", 400)
    ensures body.Decoded? && body.data.JObject? && |body.data.fields| != 0 && "text" !in body.data.fields
            ==> r == ErrorReply(TextMissing, "\"text\" missing from request body.", 400)
    ensures body.Decoded? && body.data.JObject? && "text" in body.data.fields && !body.data.fields["text"].JString?
            ==> r == ErrorReply(InvalidType, "\"text\" is not a string.", 400)
    ensures body.Decoded? && body.data.JObject? && "text" in body.data.fields && body.data.fields["text"] == JString("")
            ==> r == ErrorReply(TextEmpty, "\"text\" is empty.", 400)
    ensures forall t :: Carries(body, t) ==>
              r == match predict(t)
                   case Predicted(ps) => IntentsReply(ps, 200)
                   case PredictFailed => InternalErrorReply(error)
    ensures r.status == 200 <==> exists t :: Carries(body, t) && predict(t).Predicted?
    ensures r.status == 500 ==> r == InternalErrorReply(error)
  {
    match Intent(body, predict)
    case Replied(response) => response
    case Raised(_) => InternalErrorReply(error)
  }
}
