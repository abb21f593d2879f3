/** The JSON shape shared by the display endpoints (app/utils/responses.py). */
module Responses {
  import opened Models

  /** The object under the `"poll"` key: the poll's texts with its live tally. */
  datatype PollView = PollView(
    id: int,
    question: string,
    answerA: string,
    answerB: string,
    countA: nat,
    countB: nat)

  /**
   * `format_poll_response(poll, session)`: the poll's own fields, with the
   * counts of `get_vote_counts` for that poll. It only reads the store.
   */
  function FormatPollResponse(poll: Poll, votes: seq<Vote>): (r: PollView)
    ensures r.id == poll.id && r.question == poll.question
    ensures r.answerA == poll.answerA && r.answerB == poll.answerB
    ensures Counts(r.countA, r.countB) == GetVoteCounts(votes, poll.id)
  {
    var counts := GetVoteCounts(votes, poll.id);
    PollView(poll.id, poll.question, poll.answerA, poll.answerB, counts.a, counts.b)
  }

  /** A poll with no votes is shown with both counts at zero. */
  lemma FormatWithoutVotes(poll: Poll, votes: seq<Vote>)
    requires forall i :: 0 <= i < |votes| ==> votes[i].pollId != poll.id
    ensures FormatPollResponse(poll, votes).countA == 0
    ensures FormatPollResponse(poll, votes).countB == 0
  {
    CountAnswerZero(votes, poll.id, "A");
    CountAnswerZero(votes, poll.id, "B");
  }

  /** The shown counts add up to the poll's vote total when every stored answer is "A" or "B". */
  lemma FormatCountsTotal(poll: Poll, votes: seq<Vote>)
    requires AnswersWellFormed(votes, poll.id)
    ensures FormatPollResponse(poll, votes).countA + FormatPollResponse(poll, votes).countB
         == CountPoll(votes, poll.id)
  {
  }
}
