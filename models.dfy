/**
 * The polls and votes tables (app/models.py) as an in-memory store.
 *
 * A `Poll` row and a `Vote` row are values; the store that holds the two
 * tables is a class whose operations update its sequences in place, as the
 * ORM session does with the database rows.
 */
module Models {
  import opened Common

  /** A row of the `polls` table. `createdAt` is an abstract timestamp. */
  datatype Poll = Poll(
    id: int,
    question: string,
    answerA: string,
    answerB: string,
    isActive: bool,
    createdAt: int)

  /**
   * A row of the `votes` table. `answer` is an unconstrained string column:
   * only the vote endpoint restricts it to "A" or "B".
   */
  datatype Vote = Vote(id: int, pollId: int, answer: string, timestamp: int)

  /** The dictionary `{'A': ..., 'B': ...}` that `get_vote_counts` returns. */
  datatype Counts = Counts(a: nat, b: nat)

  /**
   * A poll built from its required columns only; `is_active` takes its column
   * default, false. The id is a placeholder until the store assigns one.
   */
  function NewPoll(question: string, answerA: string, answerB: string, createdAt: int): (p: Poll)
    ensures !p.isActive
    ensures p.question == question && p.answerA == answerA && p.answerB == answerB
    ensures p.createdAt == createdAt
  {
    Poll(0, question, answerA, answerB, false, createdAt)
  }

  // ---------------------------------------------------------------------------
  // Counting votes

  /** Does vote `v` belong to poll `pollId` and carry answer `answer`? */
  predicate Matches(v: Vote, pollId: int, answer: string) {
    v.pollId == pollId && v.answer == answer
  }

  /** Number of votes of poll `pollId` whose answer is `answer`. */
  function CountAnswer(votes: seq<Vote>, pollId: int, answer: string): (n: nat)
    ensures n <= |votes|
  {
    if votes == [] then 0
    else (if Matches(votes[0], pollId, answer) then 1 else 0) + CountAnswer(votes[1..], pollId, answer)
  }

  /** Number of votes of poll `pollId`, whatever their answer. */
  function CountPoll(votes: seq<Vote>, pollId: int): (n: nat)
    ensures n <= |votes|
  {
    if votes == [] then 0
    else (if votes[0].pollId == pollId then 1 else 0) + CountPoll(votes[1..], pollId)
  }

  /** `Poll.get_vote_counts`: the tally of "A" and "B" votes of one poll. */
  function GetVoteCounts(votes: seq<Vote>, pollId: int): (c: Counts)
    ensures c.a + c.b <= CountPoll(votes, pollId)
  {
    TallyBound(votes, pollId);
    Counts(CountAnswer(votes, pollId, "A"), CountAnswer(votes, pollId, "B"))
  }

  /** Appending one vote adds one to the count it matches and nothing to the others. */
  lemma {:induction false} CountAnswerAppend(votes: seq<Vote>, v: Vote, pollId: int, answer: string)
    ensures CountAnswer(votes + [v], pollId, answer)
         == CountAnswer(votes, pollId, answer) + (if Matches(v, pollId, answer) then 1 else 0)
  {
    if votes != [] {
      assert (votes + [v])[1..] == votes[1..] + [v];
      CountAnswerAppend(votes[1..], v, pollId, answer);
    }
  }

  /** Counting distributes over concatenation of vote sequences. */
  lemma {:induction false} CountAnswerConcat(xs: seq<Vote>, ys: seq<Vote>, pollId: int, answer: string)
    ensures CountAnswer(xs + ys, pollId, answer) == CountAnswer(xs, pollId, answer) + CountAnswer(ys, pollId, answer)
  {
    if xs == [] {
      assert xs + ys == ys;
    } else {
      assert (xs + ys)[0] == xs[0];
      assert (xs + ys)[1..] == xs[1..] + ys;
      CountAnswerConcat(xs[1..], ys, pollId, answer);
    }
  }

  /** A count is zero exactly when no vote matches. */
  lemma {:induction false} CountAnswerZero(votes: seq<Vote>, pollId: int, answer: string)
    ensures CountAnswer(votes, pollId, answer) == 0
        <==> forall i :: 0 <= i < |votes| ==> !Matches(votes[i], pollId, answer)
  {
    if votes != [] {
      CountAnswerZero(votes[1..], pollId, answer);
      assert forall i :: 1 <= i < |votes| ==> votes[i] == votes[1..][i - 1];
    }
  }

  /** Votes that belong to other polls do not change a poll's counts. */
  lemma CountIgnoresOtherPolls(votes: seq<Vote>, others: seq<Vote>, pollId: int, answer: string)
    requires forall i :: 0 <= i < |others| ==> others[i].pollId != pollId
    ensures CountAnswer(votes + others, pollId, answer) == CountAnswer(votes, pollId, answer)
  {
    CountAnswerConcat(votes, others, pollId, answer);
    CountAnswerZero(others, pollId, answer);
  }

  /** Every vote of the poll answers "A" or "B". */
  predicate AnswersWellFormed(votes: seq<Vote>, pollId: int) {
    forall i :: 0 <= i < |votes| && votes[i].pollId == pollId ==> votes[i].answer == "A" || votes[i].answer == "B"
  }

  /**
   * Since the answer column is free text, the "A" and "B" counts together
   * never exceed the poll's number of votes, and they reach it exactly when
   * every vote of the poll answers "A" or "B".
   */
  lemma {:induction false} TallyBound(votes: seq<Vote>, pollId: int)
    ensures CountAnswer(votes, pollId, "A") + CountAnswer(votes, pollId, "B") <= CountPoll(votes, pollId)
    ensures CountAnswer(votes, pollId, "A") + CountAnswer(votes, pollId, "B") == CountPoll(votes, pollId)
        <==> AnswersWellFormed(votes, pollId)
  {
    if votes != [] {
      TallyBound(votes[1..], pollId);
      assert forall i :: 1 <= i < |votes| ==> votes[i] == votes[1..][i - 1];
      if AnswersWellFormed(votes[1..], pollId) {
        assert forall i :: 0 <= i < |votes[1..]| ==> votes[1..][i] == votes[i + 1];
      }
    }
  }

  // ---------------------------------------------------------------------------
  // Poll-table predicates

  /** The ids of the polls present in the table. */
  function PollIds(polls: seq<Poll>): (ids: set<int>)
    ensures forall i :: 0 <= i < |polls| ==> polls[i].id in ids
  {
    set i | 0 <= i < |polls| :: polls[i].id
  }

  /** The ids of the votes present in the table. */
  function VoteIds(votes: seq<Vote>): (ids: set<int>)
    ensures forall i :: 0 <= i < |votes| ==> votes[i].id in ids
  {
    set i | 0 <= i < |votes| :: votes[i].id
  }

  /** `id` is the primary key of `polls`. */
  predicate DistinctPollIds(polls: seq<Poll>) {
    forall i, j :: 0 <= i < j < |polls| ==> polls[i].id != polls[j].id
  }

  /** `id` is the primary key of `votes`. */
  predicate DistinctVoteIds(votes: seq<Vote>) {
    forall i, j :: 0 <= i < j < |votes| ==> votes[i].id != votes[j].id
  }

  /** Number of polls whose `is_active` flag is set. */
  function ActiveCount(polls: seq<Poll>): (n: nat)
    ensures n <= |polls|
  {
    if polls == [] then 0
    else (if polls[0].isActive then 1 else 0) + ActiveCount(polls[1..])
  }

  /** Two distinct active rows make the active count at least two. */
  lemma {:induction false} TwoActive(polls: seq<Poll>, i: nat, j: nat)
    requires i < j < |polls| && polls[i].isActive && polls[j].isActive
    ensures ActiveCount(polls) >= 2
  {
    if i == 0 {
      ActiveAtLeastOne(polls[1..], j - 1);
    } else {
      TwoActive(polls[1..], i - 1, j - 1);
    }
  }

  /** One active row makes the active count at least one. */
  lemma {:induction false} ActiveAtLeastOne(polls: seq<Poll>, i: nat)
    requires i < |polls| && polls[i].isActive
    ensures ActiveCount(polls) >= 1
  {
    if i > 0 {
      ActiveAtLeastOne(polls[1..], i - 1);
    }
  }

  /**
   * The active-poll lookup: the first active poll in table order, or `None`
   * when no poll is active.
   */
  function FirstActive(polls: seq<Poll>): (r: Option<Poll>)
    ensures r.None? <==> forall k :: 0 <= k < |polls| ==> !polls[k].isActive
    ensures r.Some? ==> exists k :: 0 <= k < |polls| && polls[k] == r.value && r.value.isActive
                                    && forall j :: 0 <= j < k ==> !polls[j].isActive
  {
    if polls == [] then None
    else if polls[0].isActive then Some(polls[0])
    else
      var r := FirstActive(polls[1..]);
      assert forall k :: 1 <= k < |polls| ==> polls[k] == polls[1..][k - 1];
      r
  }

  /** When at most one poll is active, the lookup finds exactly that poll. */
  lemma TheActivePoll(polls: seq<Poll>, k: nat)
    requires ActiveCount(polls) <= 1
    requires k < |polls| && polls[k].isActive
    ensures FirstActive(polls) == Some(polls[k])
  {
    var r := FirstActive(polls);
    var k' :| 0 <= k' < |polls| && polls[k'] == r.value && r.value.isActive
              && forall j :: 0 <= j < k' ==> !polls[j].isActive;
    if k' < k {
      TwoActive(polls, k', k);
    }
  }

  // ---------------------------------------------------------------------------
  // Activation

  /**
   * The polls table after `Poll.activate_poll(pollId)`: every flag cleared,
   * then the flag of the row with id `pollId` set, if there is such a row.
   */
  function Activated(polls: seq<Poll>, pollId: int): (r: seq<Poll>)
    ensures |r| == |polls|
  {
    seq(|polls|, k requires 0 <= k < |polls| => polls[k].(isActive := polls[k].id == pollId))
  }

  /**
   * Activation touches nothing but the `is_active` flags, and doing it twice
   * with the same id is the same as doing it once.
   */
  lemma ActivatedOnlyFlags(polls: seq<Poll>, pollId: int)
    ensures forall k :: 0 <= k < |polls| ==> Activated(polls, pollId)[k].(isActive := polls[k].isActive) == polls[k]
    ensures PollIds(Activated(polls, pollId)) == PollIds(polls)
    ensures Activated(Activated(polls, pollId), pollId) == Activated(polls, pollId)
  {
  }

  /**
   * With a present id that poll is the only active one; with an absent id
   * no poll is active.
   */
  lemma ActivatedSelects(polls: seq<Poll>, pollId: int)
    requires DistinctPollIds(polls)
    ensures forall k :: 0 <= k < |polls| && polls[k].id == pollId ==>
      Activated(polls, pollId)[k].isActive &&
      forall j :: 0 <= j < |polls| && j != k ==> !Activated(polls, pollId)[j].isActive
    ensures pollId !in PollIds(polls) ==>
      forall j :: 0 <= j < |polls| ==> !Activated(polls, pollId)[j].isActive
  {
  }

  /**
   * Whatever the flags were before, afterwards exactly one poll is active when
   * the id is present and none when it is absent: never more than one.
   */
  lemma {:induction false} ActivatedActiveCount(polls: seq<Poll>, pollId: int)
    requires DistinctPollIds(polls)
    ensures ActiveCount(Activated(polls, pollId)) == if pollId in PollIds(polls) then 1 else 0
  {
    if polls != [] {
      var r := Activated(polls, pollId);
      assert r[1..] == Activated(polls[1..], pollId);
      ActivatedActiveCount(polls[1..], pollId);
      assert PollIds(polls) == {polls[0].id} + PollIds(polls[1..]) by {
        forall x | x in PollIds(polls) ensures x in {polls[0].id} + PollIds(polls[1..]) {
          var i :| 0 <= i < |polls| && polls[i].id == x;
          if i > 0 { assert polls[1..][i - 1].id == x; }
        }
      }
      if polls[0].id == pollId {
        forall i | 0 <= i < |polls[1..]| ensures polls[1..][i].id != pollId {
          assert polls[1..][i] == polls[i + 1];
        }
      }
    }
  }

  /** After activating a present id, the active-poll lookup returns that poll, now active. */
  lemma FirstActiveAfterActivate(polls: seq<Poll>, k: nat)
    requires DistinctPollIds(polls) && k < |polls|
    ensures FirstActive(Activated(polls, polls[k].id)) == Some(polls[k].(isActive := true))
  {
    ActivatedActiveCount(polls, polls[k].id);
    TheActivePoll(Activated(polls, polls[k].id), k);
  }

  // ---------------------------------------------------------------------------
  // Cascading delete

  /** The polls table without the row `pollId`. */
  function WithoutPoll(polls: seq<Poll>, pollId: int): (r: seq<Poll>)
    ensures forall p :: p in r <==> p in polls && p.id != pollId
  {
    if polls == [] then []
    else if polls[0].id == pollId then WithoutPoll(polls[1..], pollId)
    else [polls[0]] + WithoutPoll(polls[1..], pollId)
  }

  /** The votes table without the votes of poll `pollId` (the `delete-orphan` cascade). */
  function VotesNotOf(votes: seq<Vote>, pollId: int): (r: seq<Vote>)
    ensures forall v :: v in r <==> v in votes && v.pollId != pollId
  {
    if votes == [] then []
    else if votes[0].pollId == pollId then VotesNotOf(votes[1..], pollId)
    else [votes[0]] + VotesNotOf(votes[1..], pollId)
  }

  /** The delete removes every row of poll `pollId` and keeps each other row as often as it was there. */
  lemma {:induction false} WithoutPollMultiset(polls: seq<Poll>, pollId: int)
    ensures forall p :: multiset(WithoutPoll(polls, pollId))[p] == if p.id == pollId then 0 else multiset(polls)[p]
  {
    if polls != [] {
      assert polls == [polls[0]] + polls[1..];
      WithoutPollMultiset(polls[1..], pollId);
    }
  }

  /** The cascade removes every vote of poll `pollId` and keeps each other vote as often as it was there. */
  lemma {:induction false} VotesNotOfMultiset(votes: seq<Vote>, pollId: int)
    ensures forall v :: multiset(VotesNotOf(votes, pollId))[v] == if v.pollId == pollId then 0 else multiset(votes)[v]
  {
    if votes != [] {
      assert votes == [votes[0]] + votes[1..];
      VotesNotOfMultiset(votes[1..], pollId);
    }
  }

  lemma {:induction false} WithoutPollDistinct(polls: seq<Poll>, pollId: int)
    requires DistinctPollIds(polls)
    ensures DistinctPollIds(WithoutPoll(polls, pollId))
  {
    if polls != [] {
      WithoutPollDistinct(polls[1..], pollId);
      var rest := WithoutPoll(polls[1..], pollId);
      forall q | q in rest ensures q.id != polls[0].id {
        var i :| 0 <= i < |polls[1..]| && polls[1..][i] == q;
        assert polls[i + 1] == q;
      }
    }
  }

  lemma {:induction false} VotesNotOfDistinct(votes: seq<Vote>, pollId: int)
    requires DistinctVoteIds(votes)
    ensures DistinctVoteIds(VotesNotOf(votes, pollId))
  {
    if votes != [] {
      VotesNotOfDistinct(votes[1..], pollId);
      var rest := VotesNotOf(votes[1..], pollId);
      forall w | w in rest ensures w.id != votes[0].id {
        var i :| 0 <= i < |votes[1..]| && votes[1..][i] == w;
        assert votes[i + 1] == w;
      }
    }
  }

  /**
   * Deleting a poll leaves none of its votes behind, and leaves every count
   * of every other poll as it was.
   */
  lemma {:induction false} CascadeCounts(votes: seq<Vote>, pollId: int, other: int, answer: string)
    requires other != pollId
    ensures CountPoll(VotesNotOf(votes, pollId), pollId) == 0
    ensures CountAnswer(VotesNotOf(votes, pollId), other, answer) == CountAnswer(votes, other, answer)
  {
    if votes != [] {
      CascadeCounts(votes[1..], pollId, other, answer);
    }
  }

  // ---------------------------------------------------------------------------
  // The store

  /** The two tables, with the counters that hand out fresh primary keys. */
  class PollStore {
    var polls: seq<Poll>
    var votes: seq<Vote>
    var nextPollId: int
    var nextVoteId: int

    /**
     * The table constraints: primary keys are unique and below their counters,
     * and every vote's `poll_id` names an existing poll (the foreign key).
     */
    ghost predicate Valid()
      reads this
      ensures Valid() ==> nextPollId !in PollIds(polls) && nextVoteId !in VoteIds(votes)
    {
      && DistinctPollIds(polls)
      && DistinctVoteIds(votes)
      && (forall i :: 0 <= i < |polls| ==> polls[i].id < nextPollId)
      && (forall i :: 0 <= i < |votes| ==> votes[i].id < nextVoteId)
      && (forall i :: 0 <= i < |votes| ==> votes[i].pollId in PollIds(polls))
    }

    /** An empty database. */
    constructor ()
      ensures Valid() && polls == [] && votes == []
    {
      polls, votes := [], [];
      nextPollId, nextVoteId := 1, 1;
    }

    /**
     * Adds and commits a new `Poll` row built from its column values; the row
     * gets a fresh primary key. `isActive` is `None` when the caller leaves
     * the column to its default, which makes the poll inactive.
     */
    method AddPoll(question: string, answerA: string, answerB: string, createdAt: int, isActive: Option<bool>)
      returns (id: int)
      requires Valid()
      modifies this
      ensures Valid()
      ensures id !in PollIds(old(polls))
      ensures polls == old(polls) + [Poll(id, question, answerA, answerB, isActive == Some(true), createdAt)]
      ensures isActive == None ==> !polls[|polls| - 1].isActive
      ensures votes == old(votes)
    {
      var p := NewPoll(question, answerA, answerB, createdAt);
      if isActive.Some? {
        p := p.(isActive := isActive.value);
      }
      id := nextPollId;
      polls := polls + [p.(id := id)];
      nextPollId := nextPollId + 1;
      assert forall i :: 0 <= i < |votes| ==> votes[i].pollId in PollIds(polls) by {
        forall i | 0 <= i < |votes| ensures votes[i].pollId in PollIds(polls) {
          var j :| 0 <= j < |old(polls)| && old(polls)[j].id == votes[i].pollId;
          assert polls[j] == old(polls)[j];
        }
      }
    }

    /**
     * Adds and commits a new `Vote` row for poll `pollId`.
     * The foreign key rejects a vote whose poll does not exist, and then
     * nothing is stored.
     */
    method AddVote(pollId: int, answer: string, timestamp: int) returns (r: Option<int>)
      requires Valid()
      modifies this
      ensures Valid()
      ensures r.Some? <==> pollId in PollIds(old(polls))
      ensures r.Some? ==> r == Some(old(nextVoteId)) && r.value !in VoteIds(old(votes))
                          && polls == old(polls)
                          && votes == old(votes) + [Vote(r.value, pollId, answer, timestamp)]
      ensures r.None? ==> polls == old(polls) && votes == old(votes)
    {
      if pollId !in PollIds(polls) {
        return None;
      }
      r := Some(nextVoteId);
      votes := votes + [Vote(nextVoteId, pollId, answer, timestamp)];
      nextVoteId := nextVoteId + 1;
    }

    /** `Poll.activate_poll(session, pollId)`. */
    method ActivatePoll(pollId: int)
      requires Valid()
      modifies this
      ensures Valid()
      ensures polls == Activated(old(polls), pollId)
      ensures votes == old(votes)
    {
      // Clear the flag of every poll.
      var i := 0;
      while i < |polls|
        invariant 0 <= i <= |polls| == |old(polls)|
        invariant forall k :: 0 <= k < i ==> polls[k] == old(polls)[k].(isActive := false)
        invariant forall k :: i <= k < |polls| ==> polls[k] == old(polls)[k]
        invariant votes == old(votes) && nextPollId == old(nextPollId) && nextVoteId == old(nextVoteId)
      {
        polls := polls[i := polls[i].(isActive := false)];
        i := i + 1;
      }
      // Find the first row whose id is `pollId`.
      var j := 0;
      while j < |polls| && polls[j].id != pollId
        invariant 0 <= j <= |polls|
        invariant forall k :: 0 <= k < j ==> polls[k].id != pollId
      {
        j := j + 1;
      }
      if j < |polls| {
        polls := polls[j := polls[j].(isActive := true)];
      }
      assert polls == Activated(old(polls), pollId);
      ActivatedOnlyFlags(old(polls), pollId);
    }

    /**
     * Deletes and commits an existing poll: the cascading relationship from a
     * poll to its votes removes the poll's votes too.
     */
    method RemovePoll(pollId: int)
      requires Valid() && pollId in PollIds(polls)
      modifies this
      ensures Valid()
      ensures polls == WithoutPoll(old(polls), pollId)
      ensures votes == VotesNotOf(old(votes), pollId)
    {
      WithoutPollDistinct(polls, pollId);
      VotesNotOfDistinct(votes, pollId);
      var ps := WithoutPoll(polls, pollId);
      var vs := VotesNotOf(votes, pollId);
      forall i | 0 <= i < |vs| ensures vs[i].pollId in PollIds(ps) && vs[i].id < nextVoteId {
        assert vs[i] in votes;
        var j :| 0 <= j < |votes| && votes[j] == vs[i];
        var k :| 0 <= k < |polls| && polls[k].id == vs[i].pollId;
        assert polls[k] in ps;
      }
      forall i | 0 <= i < |ps| ensures ps[i].id < nextPollId {
        assert ps[i] in polls;
      }
      polls, votes := ps, vs;
    }
  }
}
