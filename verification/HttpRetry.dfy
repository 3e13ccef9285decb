/**
 * The retry loop of the admin API client, run against an arbitrary peer.
 *
 * A peer is the answer it would give to each attempt, so a statement over every peer covers every
 * sequence of responses, connection failures and token failures.
 */
module HttpRetry {
  import opened JsonPointer
  import opened MachineIntegers
  import opened Wrappers

  // ---- The error envelope ----

  /** A response body, and what parsing it as JSON with unique keys gave. */
  datatype Body = Unparsable | Parsed(value: Value)

  datatype ApiErrorBody = ApiErrorBody(
    error: Option<string>,
    applied: Option<bool>,
    reason: Option<string>,
    rollback: Option<string>,
    failureClass: Option<string>,
    restoreErrors: Option<seq<Value>>,
    apiSpecsAtRisk: Option<Value>,
    confirmationRequired: Option<string>)

  const EMPTY_ENVELOPE := ApiErrorBody(None, None, None, None, None, None, None, None)

  datatype Ambiguous = Ambiguous

  const MARKERS := ["error", "applied", "reason", "rollback", "failure_class", "restore_errors", "api_specs_at_risk",
                    "confirmation_required"]

  predicate HasNullMarker(v: Value) {
    exists i :: 0 <= i < |MARKERS| && Child(v, MARKERS[i]) == Some(Null)
  }

  function ReadText(v: Value, field: string): Result<Option<string>, Ambiguous> {
    match Child(v, field)
    case None => Ok(None)
    case Some(value) => if value.Str? then Ok(Some(value.text)) else Err(Ambiguous)
  }

  function ReadFlag(v: Value, field: string): Result<Option<bool>, Ambiguous> {
    match Child(v, field)
    case None => Ok(None)
    case Some(value) => if value.Bool? then Ok(Some(value.flag)) else Err(Ambiguous)
  }

  function ReadItems(v: Value, field: string): Result<Option<seq<Value>>, Ambiguous> {
    match Child(v, field)
    case None => Ok(None)
    case Some(value) => if value.Arr? then Ok(Some(value.items)) else Err(Ambiguous)
  }

  /** The members of an envelope, read one after another. */
  function ReadEnvelope(v: Value): Result<ApiErrorBody, Ambiguous> {
    match (ReadText(v, "error"), ReadFlag(v, "applied"), ReadText(v, "reason"), ReadText(v, "rollback"))
    case (Ok(error), Ok(applied), Ok(reason), Ok(rollback)) =>
      (match (ReadText(v, "failure_class"), ReadItems(v, "restore_errors"), ReadText(v, "confirmation_required"))
       case (Ok(failureClass), Ok(restoreErrors), Ok(confirmation)) =>
         Ok(ApiErrorBody(error, applied, reason, rollback, failureClass, restoreErrors,
                         Child(v, "api_specs_at_risk"), confirmation))
       case _ => Err(Ambiguous))
    case _ => Err(Ambiguous)
  }

  /** A null marker is not an absence: it proves nothing. */
  function ParseMutation(body: Body): Result<ApiErrorBody, Ambiguous> {
    if !body.Parsed? || !body.value.Obj? || HasNullMarker(body.value) then Err(Ambiguous)
    else ReadEnvelope(body.value)
  }

  // ---- Classification ----

  datatype RequestKind = Read | Mutation | NonIdempotentMutation | Restore
  datatype RetryDecision = Retry | NoRetry

  predicate RollbackNeedsManualRecovery(rollback: Option<string>) {
    rollback == Some("incomplete") || rollback == Some("unknown_outcome")
  }

  function ClassifyRetry(status: nat, body: ApiErrorBody, kind: RequestKind): RetryDecision {
    if status == 501 then NoRetry
    else if body.applied == Some(false) then NoRetry
    else if kind.NonIdempotentMutation? then NoRetry
    else if kind.Restore? then
      if RollbackNeedsManualRecovery(body.rollback) then NoRetry
      else if && status == 503
              && body.failureClass == Some("connectivity")
              && body.applied.None?
              && body.rollback.None?
              && body.reason.None?
              && body.restoreErrors.None?
      then Retry
      else NoRetry
    else if status == 408 || status == 429 then Retry
    else if 500 <= status <= 599 then Retry
    else NoRetry
  }

  predicate IsSuccessStatus(status: nat) { 200 <= status <= 299 }

  /** May a request of this kind be sent again after this answer? */
  predicate Retryable(kind: RequestKind, status: nat, body: Body) {
    && !IsSuccessStatus(status)
    && match ParseMutation(body)
       case Ok(parsed) => ClassifyRetry(status, parsed, kind).Retry?
       case Err(_) => kind.Read? && ClassifyRetry(status, EMPTY_ENVELOPE, kind).Retry?
  }

  // ---- What an answer that may be replayed looks like on the wire ----

  predicate TextOrAbsent(v: Value, field: string) {
    Child(v, field).Some? ==> Child(v, field).value.Str?
  }

  /** An object whose every marker that is present has its type. */
  predicate IsEnvelope(body: Body) {
    && body.Parsed? && body.value.Obj?
    && TextOrAbsent(body.value, "error")
    && (Child(body.value, "applied").Some? ==> Child(body.value, "applied").value.Bool?)
    && TextOrAbsent(body.value, "reason")
    && TextOrAbsent(body.value, "rollback")
    && TextOrAbsent(body.value, "failure_class")
    && (Child(body.value, "restore_errors").Some? ==> Child(body.value, "restore_errors").value.Arr?)
    && Child(body.value, "api_specs_at_risk") != Some(Null)
    && TextOrAbsent(body.value, "confirmation_required")
  }

  predicate TransientStatus(status: nat) {
    status == 408 || status == 429 || (500 <= status <= 599 && status != 501)
  }

  /** An unambiguous envelope with no sign that the write was committed. */
  predicate Unambiguous(body: Body) {
    IsEnvelope(body) && Child(body.value, "applied") != Some(Bool(false))
  }

  /** The gateway's own proof that a restore stopped before it wrote anything. */
  predicate MarkerFreeConnectivity(body: Body) {
    && IsEnvelope(body)
    && Child(body.value, "failure_class") == Some(Str("connectivity"))
    && Child(body.value, "applied").None? && Child(body.value, "rollback").None?
    && Child(body.value, "reason").None? && Child(body.value, "restore_errors").None?
  }

  /** The envelope says that the write is durable but not live. */
  predicate ReportsDurableWrite(body: Body) {
    IsEnvelope(body) && Child(body.value, "applied") == Some(Bool(false))
  }

  /** The parsed form of `MarkerFreeConnectivity`. */
  predicate ParsedConnectivity(body: ApiErrorBody) {
    && body.failureClass == Some("connectivity")
    && body.applied.None? && body.rollback.None? && body.reason.None? && body.restoreErrors.None?
  }

  lemma ClassifiedExactly(status: nat, body: ApiErrorBody, kind: RequestKind)
    ensures ClassifyRetry(status, body, kind).Retry? <==>
            match kind
            case Read => TransientStatus(status) && body.applied != Some(false)
            case Mutation => TransientStatus(status) && body.applied != Some(false)
            case NonIdempotentMutation => false
            case Restore => status == 503 && ParsedConnectivity(body)
  {}

  predicate IsNull(v: Value, field: string) { Child(v, field) == Some(Null) }

  lemma OneOfEight(v: Value, markers: seq<string>)
    requires |markers| == 8
    ensures (exists i :: 0 <= i < |markers| && Child(v, markers[i]) == Some(Null)) <==>
              || IsNull(v, markers[0]) || IsNull(v, markers[1]) || IsNull(v, markers[2]) || IsNull(v, markers[3])
              || IsNull(v, markers[4]) || IsNull(v, markers[5]) || IsNull(v, markers[6]) || IsNull(v, markers[7])
  {}

  lemma NullMarkersAre(v: Value)
    ensures HasNullMarker(v) <==>
              || IsNull(v, "error") || IsNull(v, "applied") || IsNull(v, "reason") || IsNull(v, "rollback")
              || IsNull(v, "failure_class") || IsNull(v, "restore_errors") || IsNull(v, "api_specs_at_risk")
              || IsNull(v, "confirmation_required")
  {
    OneOfEight(v, MARKERS);
  }

  /** Once every marker that is present has its type, only the last untyped one could be null. */
  lemma TypedMarkersAreNotNull(v: Value)
    requires ReadEnvelope(v).Ok?
    ensures HasNullMarker(v) <==> Child(v, "api_specs_at_risk") == Some(Null)
  {
    NullMarkersAre(v);
  }

  lemma ReadsTypedMarkers(v: Value)
    ensures ReadEnvelope(v).Ok? <==>
              && TextOrAbsent(v, "error") && (Child(v, "applied").Some? ==> Child(v, "applied").value.Bool?)
              && TextOrAbsent(v, "reason") && TextOrAbsent(v, "rollback") && TextOrAbsent(v, "failure_class")
              && (Child(v, "restore_errors").Some? ==> Child(v, "restore_errors").value.Arr?)
              && TextOrAbsent(v, "confirmation_required")
  {}

  lemma ParsesEnvelopes(body: Body)
    ensures ParseMutation(body).Ok? <==> IsEnvelope(body)
  {
    if body.Parsed? && body.value.Obj? {
      ReadsTypedMarkers(body.value);
      if ReadEnvelope(body.value).Ok? { TypedMarkersAreNotNull(body.value); }
    }
  }

  lemma ParsedMarkers(body: Body)
    requires IsEnvelope(body) && ParseMutation(body).Ok?
    ensures var parsed := ParseMutation(body).value;
            && (parsed.applied == Some(false) <==> Child(body.value, "applied") == Some(Bool(false)))
            && (ParsedConnectivity(parsed) <==> MarkerFreeConnectivity(body))
  {}

  lemma TransientIsFailure(status: nat)
    requires TransientStatus(status)
    ensures !IsSuccessStatus(status)
  {}

  /** Which answers authorise another send, kind by kind, said of the body that arrived. */
  lemma ReplayIsAuthorised(kind: RequestKind, status: nat, body: Body)
    ensures Retryable(kind, status, body) <==>
            match kind
            case Read => TransientStatus(status) && !ReportsDurableWrite(body)
            case Mutation => TransientStatus(status) && Unambiguous(body)
            case NonIdempotentMutation => false
            case Restore => status == 503 && MarkerFreeConnectivity(body)
  {
    ParsesEnvelopes(body);
    if IsEnvelope(body) { ParsedMarkers(body); }
    var parsed := if IsEnvelope(body) then ParseMutation(body).value else EMPTY_ENVELOPE;
    ClassifiedExactly(status, parsed, kind);
    if TransientStatus(status) { TransientIsFailure(status); }
  }

  // ---- The loop ----

  /** What becomes of one attempt. */
  datatype Attempt =
    | TokenRefused
    | ConnectFailed
    | TransportFailed
    | Answered(status: nat, body: Body)

  datatype RawResponse = RawResponse(status: nat, body: Body, retried: bool)
  datatype SendError = NoToken | Transport | RetriesExhausted

  /** Attempts are numbered from one. */
  type Peer = nat -> Attempt

  function MaxAttempts(maxRetries: nat): nat {
    if maxRetries + 1 > U32_MAX then U32_MAX else maxRetries + 1
  }

  /** After this attempt the loop goes on, if attempts are left. */
  predicate GoesOn(kind: RequestKind, attempt: Attempt) {
    match attempt
    case ConnectFailed => true
    case Answered(status, body) => Retryable(kind, status, body)
    case _ => false
  }

  ghost predicate AnsweredBefore(peer: Peer, n: nat) {
    exists k: nat :: 1 <= k < n && peer(k).Answered?
  }

  /** The loop made exactly `n` attempts against `peer` and came back with `result`. */
  ghost predicate IsRun(kind: RequestKind, maxRetries: nat, peer: Peer, n: nat,
                        result: Result<RawResponse, SendError>)
  {
    && 1 <= n <= MaxAttempts(maxRetries)
    && (forall k: nat :: 1 <= k < n ==> GoesOn(kind, peer(k)))
    && (GoesOn(kind, peer(n)) ==> n == MaxAttempts(maxRetries))
    && match peer(n)
       case TokenRefused => result == Err(NoToken)
       case ConnectFailed => result == Err(Transport)
       case TransportFailed => result == Err(Transport)
       case Answered(status, body) =>
         && result.Ok?
         && result.value.status == status
         && result.value.body == body
         && (result.value.retried <==> AnsweredBefore(peer, n))
  }

  /** The loop as written. `maxRetries` is an unsigned 32-bit number, and the addition saturates. */
  method SendWithRetry(kind: RequestKind, maxRetries: nat, peer: Peer)
    returns (result: Result<RawResponse, SendError>, attempts: nat)
    requires maxRetries <= U32_MAX
    ensures IsRun(kind, maxRetries, peer, attempts, result)
  {
    var maxAttempts := MaxAttempts(maxRetries);
    var answeredBefore := false;
    var attempt := 1;
    attempts := 0;
    while attempt <= maxAttempts
      invariant 1 <= attempt <= maxAttempts
      invariant forall k: nat :: 1 <= k < attempt ==> GoesOn(kind, peer(k))
      invariant answeredBefore <==> AnsweredBefore(peer, attempt)
    {
      attempts := attempt;
      match peer(attempt) {
        case TokenRefused =>
          return Err(NoToken), attempts;
        case Answered(status, body) =>
          if !Retryable(kind, status, body) || attempt == maxAttempts {
            return Ok(RawResponse(status, body, answeredBefore)), attempts;
          }
          answeredBefore := true;
        case ConnectFailed =>
          if attempt == maxAttempts {
            return Err(Transport), attempts;
          }
        case TransportFailed =>
          return Err(Transport), attempts;
      }
      attempt := attempt + 1;
    }
    assert false;
    return Err(RetriesExhausted), attempts;
  }

  // ---- Retry safety, for every peer ----

  /** The description of a run fixes it: how often it sent, and what it returned. */
  lemma RunIsDetermined(kind: RequestKind, maxRetries: nat, peer: Peer,
                        n: nat, result: Result<RawResponse, SendError>,
                        n': nat, result': Result<RawResponse, SendError>)
    requires IsRun(kind, maxRetries, peer, n, result) && IsRun(kind, maxRetries, peer, n', result')
    ensures n == n' && result == result'
  {
    assert n < n' ==> GoesOn(kind, peer(n));
    assert n' < n ==> GoesOn(kind, peer(n'));
  }

  /** The last return, "retries exhausted", is never reached. */
  lemma NeverExhausted(kind: RequestKind, maxRetries: nat, peer: Peer, n: nat,
                       result: Result<RawResponse, SendError>)
    requires IsRun(kind, maxRetries, peer, n, result)
    ensures n <= maxRetries + 1
    ensures result != Err(RetriesExhausted)
  {}

  /** May another attempt follow this one? Said of what arrived, kind by kind. */
  predicate MayBeSentAgain(kind: RequestKind, attempt: Attempt) {
    match attempt
    case TokenRefused => false
    case TransportFailed => false
    case ConnectFailed => true
    case Answered(status, body) =>
      match kind
      case Read => TransientStatus(status) && !ReportsDurableWrite(body)
      case Mutation => TransientStatus(status) && Unambiguous(body)
      case NonIdempotentMutation => false
      case Restore => status == 503 && MarkerFreeConnectivity(body)
  }

  /** The loop goes on exactly while another attempt may follow and one is left: retries and one more. */
  lemma AttemptsExactly(kind: RequestKind, maxRetries: nat, peer: Peer, n: nat, result: Result<RawResponse, SendError>)
    requires IsRun(kind, maxRetries, peer, n, result) && maxRetries <= 0xFFFF_FFFF
    ensures 1 <= n <= maxRetries + 1
    ensures forall k: nat :: 1 <= k < n ==> MayBeSentAgain(kind, peer(k))
    ensures MayBeSentAgain(kind, peer(n)) ==> n == if maxRetries == 0xFFFF_FFFF then maxRetries else maxRetries + 1
  {
    forall k: nat | 1 <= k <= n ensures GoesOn(kind, peer(k)) <==> MayBeSentAgain(kind, peer(k)) {
      if peer(k).Answered? { ReplayIsAuthorised(kind, peer(k).status, peer(k).body); }
    }
  }

  /** A create or a batch gets at most one answer: only connect failures are followed by another send. */
  lemma CreatesAreAnsweredOnce(maxRetries: nat, peer: Peer, n: nat,
                               result: Result<RawResponse, SendError>)
    requires IsRun(NonIdempotentMutation, maxRetries, peer, n, result)
    ensures forall k: nat :: 1 <= k < n ==> peer(k).ConnectFailed?
    ensures result.Ok? ==> !result.value.retried
  {
    forall k: nat | 1 <= k < n ensures peer(k).ConnectFailed? {
      assert GoesOn(NonIdempotentMutation, peer(k));
    }
  }

  /** A restore goes out again only after a failed connection or proof that nothing was written. */
  lemma RestoresAreResentOnProof(maxRetries: nat, peer: Peer, n: nat,
                                 result: Result<RawResponse, SendError>)
    requires IsRun(Restore, maxRetries, peer, n, result)
    ensures forall k: nat :: 1 <= k < n && peer(k).Answered? ==>
              peer(k).status == 503 && MarkerFreeConnectivity(peer(k).body)
  {
    forall k: nat | 1 <= k < n && peer(k).Answered?
      ensures peer(k).status == 503 && MarkerFreeConnectivity(peer(k).body)
    {
      assert GoesOn(Restore, peer(k));
      ReplayIsAuthorised(Restore, peer(k).status, peer(k).body);
    }
  }

  /** No write goes out again after an ambiguous or durable answer, and no request of any kind after a durable one. */
  lemma WritesAreNotReplayedBlindly(kind: RequestKind, maxRetries: nat, peer: Peer, n: nat,
                                    result: Result<RawResponse, SendError>)
    requires IsRun(kind, maxRetries, peer, n, result)
    ensures forall k: nat :: 1 <= k < n && peer(k).Answered? ==>
              && TransientStatus(peer(k).status)
              && !ReportsDurableWrite(peer(k).body)
              && (!kind.Read? ==> Unambiguous(peer(k).body))
  {
    forall k: nat | 1 <= k < n && peer(k).Answered?
      ensures && TransientStatus(peer(k).status)
              && !ReportsDurableWrite(peer(k).body)
              && (!kind.Read? ==> Unambiguous(peer(k).body))
    {
      assert GoesOn(kind, peer(k));
      ReplayIsAuthorised(kind, peer(k).status, peer(k).body);
    }
  }
}
