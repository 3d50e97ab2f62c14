/**
 * The validation chain of the `create_poll` handler: the request payload is
 * checked field by field, the first failing check decides the 400 answer, and
 * only a payload that passes every check reaches the insert and the 201
 * answer.
 */
module PollValidation {
  import opened StringOrder

  /** The JSON body of a `create_poll` request; all three keys present as strings. */
  datatype Payload = Payload(title: string, startDate: string, endDate: string)

  /** The five reasons, in the order the handler tests them, for refusing a payload. */
  datatype Rejection =
    | EmptyTitle
    | EmptyStartDate
    | EmptyEndDate
    | StartAfterEnd
    | StartEqualsEnd

  datatype Verdict = Accepted | Rejected(reason: Rejection)

  /** What the handler sends back: an HTTP status and the `message` field of the JSON body. */
  datatype Response = Response(status: nat, message: string)

  const CreatedStatus: nat := 201
  const BadRequestStatus: nat := 400
  const CreatedMessage: string := "Poll created successfully"

  /** The `message` of each 400 answer; none of them reads as the success message. */
  function Message(e: Rejection): (m: string)
    ensures m != CreatedMessage
  {
    match e
    case EmptyTitle => "Title cannot be empty"
    case EmptyStartDate => "Start date cannot be empty"
    case EmptyEndDate => "End date cannot be empty"
    case StartAfterEnd => "Start date cannot be greater than end date"
    case StartEqualsEnd => "Start date cannot be equal to end date"
  }

  /**
   * The checks run in a fixed order and stop at the first failure. Python's
   * `not s` on a string is `s == ""`, and `start > end` is Python's string
   * order with the operands swapped.
   */
  function Validate(p: Payload): (v: Verdict)
    ensures v.Rejected? ==> Fails(p, v.reason)
  {
    if p.title == [] then Rejected(EmptyTitle)
    else if p.startDate == [] then Rejected(EmptyStartDate)
    else if p.endDate == [] then Rejected(EmptyEndDate)
    else if LexLess(p.endDate, p.startDate) then Rejected(StartAfterEnd)
    else if p.startDate == p.endDate then Rejected(StartEqualsEnd)
    else Accepted
  }

  /** A verdict becomes 201 when accepted and 400 otherwise. */
  function Respond(v: Verdict): (r: Response)
    ensures r.status == CreatedStatus <==> v == Accepted
    ensures r.status != CreatedStatus ==> r.status == BadRequestStatus
  {
    match v
    case Accepted => Response(CreatedStatus, CreatedMessage)
    case Rejected(e) => Response(BadRequestStatus, Message(e))
  }

  /** The handler's answer to a payload, before any insert: 201 exactly for an acceptable payload. */
  function Answer(p: Payload): (r: Response)
    ensures r.status == CreatedStatus <==> Acceptable(p)
  {
    ValidateAcceptsExactly(p);
    Respond(Validate(p))
  }

  // ----- Specification ---------------------------------------------------------

  /** A poll the handler admits: three non-empty fields and a start strictly before the end. */
  predicate Acceptable(p: Payload) {
    p.title != [] && p.startDate != [] && p.endDate != [] && LexLess(p.startDate, p.endDate)
  }

  /** Position of each check in the chain. */
  function Rank(e: Rejection): nat {
    match e
    case EmptyTitle => 0
    case EmptyStartDate => 1
    case EmptyEndDate => 2
    case StartAfterEnd => 3
    case StartEqualsEnd => 4
  }

  /** Whether the check for `e`, taken on its own, finds fault with `p`. */
  predicate Fails(p: Payload, e: Rejection) {
    match e
    case EmptyTitle => p.title == []
    case EmptyStartDate => p.startDate == []
    case EmptyEndDate => p.endDate == []
    case StartAfterEnd => LexLess(p.endDate, p.startDate)
    case StartEqualsEnd => p.startDate == p.endDate
  }

  // ----- Properties ------------------------------------------------------------

  /** The handler accepts exactly the payloads with non-empty fields and start < end. */
  lemma ValidateAcceptsExactly(p: Payload)
    ensures Validate(p) == Accepted <==> Acceptable(p)
  {
    NotGreaterNotEqualIsLess(p.startDate, p.endDate);
  }

  /**
   * The payload is refused for reason `e` exactly when check `e` fails and
   * every check before it passes: the reported reason is the first failing one.
   */
  lemma ValidateReportsFirstFailure(p: Payload, e: Rejection)
    ensures Validate(p) == Rejected(e) <==>
              Fails(p, e) && forall e' :: Rank(e') < Rank(e) ==> !Fails(p, e')
  {
  }

  /** Acceptance happens exactly when no check fails. */
  lemma ValidateAcceptsWhenNoCheckFails(p: Payload)
    ensures Validate(p) == Accepted <==> forall e :: !Fails(p, e)
  {
  }

  /** Each call gets one answer: 201 with the success message, or 400 with a reason's message. */
  lemma AnswerIsCreatedOrBadRequest(p: Payload)
    ensures Answer(p).status == CreatedStatus <==> Acceptable(p)
    ensures Answer(p).status == CreatedStatus ==> Answer(p).message == CreatedMessage
    ensures Answer(p).status != CreatedStatus ==>
              Answer(p).status == BadRequestStatus && Answer(p).message == Message(Validate(p).reason)
  {
  }

  /** The answer each check gives once every earlier check has passed. */
  lemma AnswerPerCheck(p: Payload)
    ensures p.title == [] ==>
              Answer(p) == Response(400, "Title cannot be empty")
    ensures p.title != [] && p.startDate == [] ==>
              Answer(p) == Response(400, "Start date cannot be empty")
    ensures p.title != [] && p.startDate != [] && p.endDate == [] ==>
              Answer(p) == Response(400, "End date cannot be empty")
    ensures p.title != [] && p.startDate != [] && p.endDate != [] && LexLess(p.endDate, p.startDate) ==>
              Answer(p) == Response(400, "Start date cannot be greater than end date")
    ensures p.title != [] && p.startDate != [] && p.endDate != [] && p.startDate == p.endDate ==>
              Answer(p) == Response(400, "Start date cannot be equal to end date")
  {
  }

  /** The message alone tells the caller which outcome occurred. */
  lemma MessagesIdentifyOutcome(v: Verdict, w: Verdict)
    ensures Respond(v).message == Respond(w).message ==> v == w
  {
  }
}
