/** How an action's failure goes over the wire: at once (`publicError` and `errorResponse`), and from the receipt when
    the call is repeated (`replay` and `adminFailureOfWire`; packages/admin/src/dispatcher.ts and failures.ts). */
module WireErrors {
  import opened Options

  /** A code on the wire: `ARKI_ADMIN_E0NN` by its number, or any other text. */
  datatype Code = Admin(number: nat) | Own(text: string)

  /** The failures of the protocol. */
  datatype Protocol =
    | InvalidRequest | InvalidOutput | Unauthenticated | ScopeDenied | WritesDisabled | StaleApproval
    | UnknownCapability | TargetMismatch | ProtocolUnsupported | HandlerFailed | Unreachable
    | ReceiptsUnavailable | ExecutionInProgress

  datatype Failure = OfProtocol(kind: Protocol) | Foreign(code: Code)

  /** What an action ends in when it gives no data, after the dispatcher has turned unknown failures into defects.
      Messages of `ModuleError` and `AdminError` are without the code that their constructors put in front. */
  datatype Problem =
    | ModuleRefused(code: Code, status: int, message: string, remediation: string)
    | Failing(failure: Failure, status: int, message: string, advice: Option<string>)
    | ModuleError(code: Code, status: int, message: string, remediation: string)
    | AdminError(number: nat, message: string, remediation: string)
    | Other

  /** What a receipt keeps of a failure. */
  datatype PublicError = PublicError(code: Code, message: string, status: Option<int>)

  datatype ErrorBody = ErrorBody(status: int, code: Code, message: string, remediation: string)

  const GENERIC: string := "The app failed to handle the request."
  const CONTRACT: string := "The app produced data that does not match its own contract."
  const SEE_LOG: string := "Check the app's log for this request."
  const AGAIN: string := "This execution already ran and failed. Propose and approve it again."

  // ---- the tables ----

  const INVALID_OUTPUT: nat := 5
  const INVALID_CONFIG: nat := 14
  const HANDLER_FAILED: nat := 15

  /** `PROTOCOL_FAILURES`, read from the failure to its wire code. */
  function WireNumber(kind: Protocol): nat {
    match kind
    case InvalidRequest => 4
    case InvalidOutput => INVALID_OUTPUT
    case Unauthenticated => 7
    case ScopeDenied => 8
    case WritesDisabled => 9
    case StaleApproval => 10
    case UnknownCapability => 11
    case TargetMismatch => 12
    case ProtocolUnsupported => 13
    case HandlerFailed => HANDLER_FAILED
    case Unreachable => 16
    case ReceiptsUnavailable => 17
    case ExecutionInProgress => 18
  }

  /** `PROTOCOL_FAILURES`, read from the wire code to the failure. */
  function OfNumber(number: nat): Option<Protocol> {
    match number
    case 4 => Some(InvalidRequest)
    case 5 => Some(InvalidOutput)
    case 7 => Some(Unauthenticated)
    case 8 => Some(ScopeDenied)
    case 9 => Some(WritesDisabled)
    case 10 => Some(StaleApproval)
    case 11 => Some(UnknownCapability)
    case 12 => Some(TargetMismatch)
    case 13 => Some(ProtocolUnsupported)
    case 15 => Some(HandlerFailed)
    case 16 => Some(Unreachable)
    case 17 => Some(ReceiptsUnavailable)
    case 18 => Some(ExecutionInProgress)
    case _ => None
  }

  /** The status each protocol failure is defined with. */
  function StatusOf(kind: Protocol): int {
    match kind
    case InvalidRequest => 400
    case InvalidOutput => 502
    case Unauthenticated => 401
    case ScopeDenied => 403
    case WritesDisabled => 403
    case StaleApproval => 409
    case UnknownCapability => 404
    case TargetMismatch => 502
    case ProtocolUnsupported => 400
    case HandlerFailed => 500
    case Unreachable => 502
    case ReceiptsUnavailable => 403
    case ExecutionInProgress => 409
  }

  /** The advice each protocol failure is defined with. */
  function AdviceOf(kind: Protocol): string {
    match kind
    case InvalidRequest => "Send input accepted by the read or action input schema."
    case InvalidOutput => "Upgrade the app to a matching @arki/admin version, or check the installed Coolify version."
    case Unauthenticated =>
      "Check the Foreman key pair, the target audience and both clocks; the app log names the failed check."
    case ScopeDenied => "Sign the request with a scope that covers the permission."
    case WritesDisabled => "Set FOREMAN_WRITES=on on the app when writes should be allowed again."
    case StaleApproval => "Preview and approve again against the current manifest."
    case UnknownCapability => "Use a read or action id from the app's manifest."
    case TargetMismatch =>
      "Check the target's base URL and the identity key recorded at enrollment; do not act on this response."
    case ProtocolUnsupported => "Use client and server versions supporting the same admin protocol."
    case HandlerFailed => "Inspect the private application log and repair the failing handler."
    case Unreachable => "Treat the outcome as unknown; check the target is up and reachable."
    case ReceiptsUnavailable => "Configure a healthy receipt store, then propose the action again."
    case ExecutionInProgress => "Do not send it again. Read core.receipts.get for its outcome."
  }

  /** `STATUS_BY_CODE`, with 500 for the codes it does not list. */
  function StatusByCode(number: nat): int {
    match number
    case 4 => 400
    case 13 => 400
    case 7 => 401
    case 8 => 403
    case 9 => 403
    case 11 => 404
    case 10 => 409
    case 17 => 403
    case 18 => 409
    case _ => 500
  }

  /** The two status tables agree on every protocol failure below 500. Above, the wire table says 500 for all, and a
      failure itself 500 when the handler failed and 502 when something beyond it did. */
  lemma StatusTablesAgree(kind: Protocol)
    ensures StatusOf(kind) < 500 ==> StatusByCode(WireNumber(kind)) == StatusOf(kind)
    ensures StatusOf(kind) >= 500 <==> kind in {InvalidOutput, HandlerFailed, TargetMismatch, Unreachable}
    ensures StatusOf(kind) >= 500 ==>
              StatusByCode(WireNumber(kind)) == 500 && StatusOf(kind) == if kind == HandlerFailed then 500 else 502
  {}

  // ---- the first answer ----

  function WireCode(failure: Failure): Code {
    match failure
    case OfProtocol(kind) => Admin(WireNumber(kind))
    case Foreign(code) => code
  }

  /** 5xx messages never carry the app's own text. */
  function Shown(status: int, message: string): string { if status >= 500 then GENERIC else message }

  /** `publicError`. */
  function PublicErrorOf(p: Problem): PublicError {
    match p
    case ModuleRefused(code, status, message, _) => PublicError(code, Shown(status, message), Some(status))
    case Failing(failure, status, message, _) => PublicError(WireCode(failure), Shown(status, message), Some(status))
    case ModuleError(code, status, message, _) => PublicError(code, Shown(status, message), Some(status))
    case AdminError(number, message, _) =>
      var text :=
        if StatusByCode(number) < 500 then message
        else if number == INVALID_OUTPUT then CONTRACT
        else GENERIC;
      PublicError(Admin(number), text, None)
    case Other => PublicError(Admin(HANDLER_FAILED), GENERIC, None)
  }

  /** `errorResponse`. */
  function ErrorResponse(p: Problem): ErrorBody {
    var e := PublicErrorOf(p);
    match p
    case ModuleRefused(_, status, _, remediation) => ErrorBody(status, e.code, e.message, remediation)
    case Failing(_, status, _, advice) =>
      ErrorBody(status, e.code, e.message, if advice.Some? then advice.value else SEE_LOG)
    case ModuleError(_, status, _, remediation) => ErrorBody(status, e.code, e.message, remediation)
    case AdminError(number, _, remediation) => ErrorBody(StatusByCode(number), e.code, e.message, remediation)
    case Other => ErrorBody(500, e.code, e.message, SEE_LOG)
  }

  // ---- the answer from a receipt ----

  /** `failedReceiptSchema`: an error outside it is never stored. */
  predicate Storable(e: PublicError) {
    && (match e.code case Admin(_) => true case Own(text) => 1 <= |text| <= 64)
    && |e.message| <= 2000
    && (e.status.Some? ==> 400 <= e.status.value <= 599)
  }

  /** `adminFailureOfWire`. */
  function FailureOfWire(code: Code, message: string): Option<Problem> {
    match code
    case Own(_) => None
    case Admin(number) =>
      match OfNumber(number)
      case None => None
      case Some(kind) => Some(Failing(OfProtocol(kind), StatusOf(kind), message, Some(AdviceOf(kind))))
  }

  /** What `replay` answers from a stored failure. */
  function Replayed(e: PublicError): Problem {
    match FailureOfWire(e.code, e.message)
    case Some(failure) => failure
    case None => ModuleRefused(e.code, if e.status.Some? then e.status.value else 400, e.message, AGAIN)
  }

  // ---- the two answers compared ----

  /** The same status, code and message. */
  predicate Alike(a: ErrorBody, b: ErrorBody) { a.status == b.status && a.code == b.code && a.message == b.message }

  /** A protocol code travels with the protocol's own status for it. */
  predicate OwnStatus(code: Code, status: int) {
    code.Admin? && OfNumber(code.number).Some? ==> status == StatusOf(OfNumber(code.number).value)
  }

  /** The failures that a repeat answers as the first call did: a code of the protocol must have come with the status
      the protocol gives it, and an `AdminError`, whose status is not stored, must be one that both tables agree on. */
  predicate Repeatable(p: Problem) {
    match p
    case ModuleRefused(code, status, _, _) => OwnStatus(code, status)
    case Failing(failure, status, _, _) => OwnStatus(WireCode(failure), status)
    case ModuleError(code, status, _, _) => OwnStatus(code, status)
    case AdminError(number, _, _) =>
      number == 4 || 7 <= number <= 11 || number == 13 || number == HANDLER_FAILED || number == 17 || number == 18
    case Other => true
  }

  /** No answer with a status of 500 or more carries the app's own text, neither at first nor on a repeat; below that the
      message is the problem's own. */
  lemma OwnTextStaysInside(p: Problem)
    ensures ErrorResponse(p).status >= 500 ==> ErrorResponse(p).message == GENERIC || ErrorResponse(p).message == CONTRACT
    ensures var repeated := ErrorResponse(Replayed(PublicErrorOf(p)));
            repeated.status >= 500 ==> repeated.message == GENERIC || repeated.message == CONTRACT
    ensures ErrorResponse(p).status < 500 && !p.Other? ==> ErrorResponse(p).message == p.message
  {
    hide AdviceOf;
  }

  /** A wire code leads back to the failure that travels under it. */
  lemma WireCodesRoundTrip(kind: Protocol, number: nat)
    ensures OfNumber(WireNumber(kind)) == Some(kind)
    ensures OfNumber(number).Some? ==> WireNumber(OfNumber(number).value) == number
  {}

  /** A repeat always answers the first call's code; it answers the same status and message exactly for the failures
      above. */
  lemma RepeatAnswersAlike(p: Problem)
    ensures var first, repeated := ErrorResponse(p), ErrorResponse(Replayed(PublicErrorOf(p)));
            && repeated.code == first.code
            && (Alike(repeated, first) <==> Repeatable(p))
            && (repeated.status == first.status <==> Repeatable(p))
  {
    hide AdviceOf;
    var e := PublicErrorOf(p);
    if e.code.Admin? { WireCodesRoundTrip(HandlerFailed, e.code.number); }
  }

  /** `moduleError` called with a blank code throws AdminError E014: 500 at first, 400 on the repeat. */
  lemma InvalidConfigDiffers(message: string, remediation: string)
    ensures var p := AdminError(INVALID_CONFIG, message, remediation);
            ErrorResponse(p).status == 500 && ErrorResponse(Replayed(PublicErrorOf(p))).status == 400
  {
    hide AdviceOf;
  }

  /** Any other thrown value answers alike both times, with another advice. */
  lemma AdviceDiffers()
    ensures Alike(ErrorResponse(Replayed(PublicErrorOf(Other))), ErrorResponse(Other))
    ensures ErrorResponse(Other).remediation == SEE_LOG
    ensures ErrorResponse(Replayed(PublicErrorOf(Other))).remediation == AdviceOf(HandlerFailed)
    ensures SEE_LOG != AdviceOf(HandlerFailed)
  {
    assert |SEE_LOG| < |AdviceOf(HandlerFailed)|;
    RepeatAnswersAlike(Other);
    hide AdviceOf, Alike;
    assert Replayed(PublicErrorOf(Other)) == Failing(OfProtocol(HandlerFailed), 500, GENERIC, Some(AdviceOf(HandlerFailed)));
  }
}
