/**
 * The poll table and the insert that `create_poll` performs once its payload
 * has passed validation.
 */
module PollStore {
  import opened PollValidation

  /** A row of the poll table; the generated integer key is not modelled. */
  datatype Poll = Poll(title: string, startDate: string, endDate: string)

  /** Every stored poll is one that validation admitted. */
  predicate WellFormed(poll: Poll) {
    Acceptable(Payload(poll.title, poll.startDate, poll.endDate))
  }

  class Store {
    /** The rows of the poll table, oldest first. */
    var polls: seq<Poll>

    ghost predicate Valid()
      reads this
    {
      forall i :: 0 <= i < |polls| ==> WellFormed(polls[i])
    }

    constructor ()
      ensures Valid() && polls == []
    {
      polls := [];
    }

    /**
     * The `create_poll` handler: validate, and on success insert one row and
     * answer 201; on any failure answer 400 and leave the table alone.
     */
    method CreatePoll(p: Payload) returns (r: Response)
      modifies this
      ensures old(Valid()) ==> Valid()
      ensures r == Answer(p)
      ensures r.status == CreatedStatus <==> Acceptable(p)
      ensures r.status == CreatedStatus ==>
                polls == old(polls) + [Poll(p.title, p.startDate, p.endDate)]
      ensures r.status != CreatedStatus ==>
                r.status == BadRequestStatus && polls == old(polls)
    {
      AnswerIsCreatedOrBadRequest(p);
      var v := Validate(p);
      if v.Rejected? {
        return Respond(v);
      }
      var poll := Poll(p.title, p.startDate, p.endDate);
      polls := polls + [poll];
      return Response(CreatedStatus, CreatedMessage);
    }
  }
}
