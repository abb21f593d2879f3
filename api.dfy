/** The vote endpoint and the display-data endpoint (app/routes/api.py). */
module Api {
  import opened Common
  import opened Models
  import opened Responses

  /** The three rejections of `vote()`, each answered with status 400. */
  datatype VoteError = AnswerRequired | InvalidAnswer | NoActivePoll

  /** The `"error"` text of each rejection. */
  function ErrorMessage(e: VoteError): (msg: string)
    ensures msg != ""
    ensures e == InvalidAnswer <==> "Invalid" <= msg
    ensures e == NoActivePoll <==> "No active poll" <= msg
  {
    match e
    case AnswerRequired =>
      assert "Answer is required"[0] != "Invalid"[0];
      assert "Answer is required"[0] != "No active poll"[0];
      "Answer is required"
    case InvalidAnswer =>
      assert "Invalid answer. Must be A or B"[0] != "No active poll"[0];
      "Invalid answer. Must be A or B"
    case NoActivePoll => "No active poll"
  }

  /** Each rejection has its own text, so a client can tell them apart. */
  lemma ErrorMessagesDistinct(e1: VoteError, e2: VoteError)
    requires e1 != e2
    ensures ErrorMessage(e1) != ErrorMessage(e2)
  {
  }

  /** The decision of `vote()`: the poll the vote was recorded for, or why it was refused. */
  datatype VoteOutcome = Recorded(pollId: int) | Rejected(error: VoteError)

  /**
   * The HTTP answer of `vote()`: `200 {"success": true, "poll_id": id}` or
   * `400 {"success": false, "error": message}`.
   */
  datatype VoteResponse = VoteResponse(status: int, success: bool, pollId: Option<int>, error: Option<string>)

  /** The JSON body and status code `vote()` returns for an outcome. */
  function Respond(o: VoteOutcome): (r: VoteResponse)
    ensures r.success <==> r.status == 200
    ensures r.success <==> o.Recorded?
    ensures !r.success ==> r.status == 400
    ensures o.Recorded? ==> r.pollId == Some(o.pollId) && r.error == None
    ensures o.Rejected? ==> r.pollId == None && r.error == Some(ErrorMessage(o.error))
  {
    match o
    case Recorded(id) => VoteResponse(200, true, Some(id), None)
    case Rejected(e) => VoteResponse(400, false, None, Some(ErrorMessage(e)))
  }

  /**
   * A vote with no active poll is answered 400 with "No active poll",
   * whatever the store holds otherwise.
   */
  lemma NoActivePollResponse(polls: seq<Poll>, answer: string)
    requires ValidAnswer(answer)
    requires forall k :: 0 <= k < |polls| ==> !polls[k].isActive
    ensures Respond(DecideVote(polls, Some(answer))) == VoteResponse(400, false, None, Some("No active poll"))
  {
  }

  /** The only two answers the endpoint accepts. */
  predicate ValidAnswer(answer: string) {
    answer == "A" || answer == "B"
  }

  /**
   * The guards of `vote()` in source order: the `answer` query parameter must
   * be present and non-empty, then be "A" or "B", then a poll must be active.
   * `answer` is `None` when the parameter is missing.
   */
  function DecideVote(polls: seq<Poll>, answer: Option<string>): (r: VoteOutcome)
    ensures r == Rejected(AnswerRequired) <==> answer == None || answer == Some("")
    ensures r == Rejected(InvalidAnswer) <==> answer.Some? && answer.value != "" && !ValidAnswer(answer.value)
    ensures r == Rejected(NoActivePoll)
        <==> answer.Some? && ValidAnswer(answer.value) && forall k :: 0 <= k < |polls| ==> !polls[k].isActive
    ensures r.Recorded? ==> exists k :: 0 <= k < |polls| && polls[k].isActive && polls[k].id == r.pollId
  {
    if answer == None || answer == Some("") then Rejected(AnswerRequired)
    else if !ValidAnswer(answer.value) then Rejected(InvalidAnswer)
    else match FirstActive(polls)
      case None => Rejected(NoActivePoll)
      case Some(p) => Recorded(p.id)
  }

  /**
   * `vote()`, already past the vote-password check. On success exactly one
   * vote is appended, for the active poll and with the given answer; on any
   * rejection the store is left as it was. `emitFails` says whether the
   * `vote_cast` notification raised: the exception is swallowed, so the
   * outcome does not depend on it.
   */
  method CastVote(store: PollStore, answer: Option<string>, timestamp: int, emitFails: bool)
    returns (r: VoteOutcome)
    requires store.Valid()
    modifies store
    ensures store.Valid()
    ensures r == DecideVote(old(store.polls), answer)
    ensures store.polls == old(store.polls)
    ensures r.Rejected? ==> store.votes == old(store.votes)
    ensures r.Recorded? ==>
      store.votes == old(store.votes) + [Vote(old(store.nextVoteId), r.pollId, answer.value, timestamp)]
  {
    if answer == None || answer == Some("") {
      return Rejected(AnswerRequired);
    }
    if !ValidAnswer(answer.value) {
      return Rejected(InvalidAnswer);
    }
    var active := FirstActive(store.polls);
    if active.None? {
      return Rejected(NoActivePoll);
    }
    var added := store.AddVote(active.value.id, answer.value, timestamp);
    if added.None? {
      // The active poll is a row of the table, so the foreign key holds.
      assert false;
    }
    // The `vote_cast` emit happens here; whether it fails does not matter.
    r := Recorded(active.value.id);
  }

  /**
   * After a recorded vote for poll `pollId` with answer "A" or "B", that
   * answer's count has grown by one and the other count is unchanged.
   */
  lemma VoteRaisesTally(votes: seq<Vote>, v: Vote, pollId: int)
    requires v.pollId == pollId && ValidAnswer(v.answer)
    ensures var before, after := GetVoteCounts(votes, pollId), GetVoteCounts(votes + [v], pollId);
      if v.answer == "A" then after == Counts(before.a + 1, before.b)
      else after == Counts(before.a, before.b + 1)
  {
    CountAnswerAppend(votes, v, pollId, "A");
    CountAnswerAppend(votes, v, pollId, "B");
  }

  /**
   * `display_data()`: `{"poll": null}` (here `None`) when no poll is active,
   * otherwise the formatted active poll.
   */
  function DisplayData(polls: seq<Poll>, votes: seq<Vote>): (r: Option<PollView>)
    ensures r.None? <==> forall k :: 0 <= k < |polls| ==> !polls[k].isActive
    ensures r.Some? ==> exists k :: 0 <= k < |polls| && polls[k].isActive
                                    && r.value == FormatPollResponse(polls[k], votes)
  {
    match FirstActive(polls)
    case None => None
    case Some(p) => Some(FormatPollResponse(p, votes))
  }

  /**
   * Right after a successful vote, the display data shows the voted poll with
   * the new vote counted, when that poll is the only active one.
   */
  lemma DisplayAfterVote(polls: seq<Poll>, votes: seq<Vote>, k: nat, v: Vote)
    requires ActiveCount(polls) <= 1 && k < |polls| && polls[k].isActive
    requires v.pollId == polls[k].id && ValidAnswer(v.answer)
    ensures DisplayData(polls, votes + [v]).Some?
    ensures var before, after := FormatPollResponse(polls[k], votes), DisplayData(polls, votes + [v]).value;
      after.id == polls[k].id && after.countA + after.countB == before.countA + before.countB + 1
  {
    TheActivePoll(polls, k);
    VoteRaisesTally(votes, v, polls[k].id);
  }
}
