/**
 * The view-models of the three display pages built in app/__init__.py
 * (`display`, `display_no_votes`, `display_completed`), without templating.
 */
module Views {
  import opened Common
  import opened Models

  // ---------------------------------------------------------------------------
  // /display and /display-no-votes

  /** What `/display` renders: the active poll with its counts. */
  datatype LivePage = LivePage(poll: Poll, countA: nat, countB: nat)

  /** `display()`: the active poll and its tally, or nothing when no poll is active. */
  function Display(polls: seq<Poll>, votes: seq<Vote>): (r: Option<LivePage>)
    ensures r.None? <==> forall k :: 0 <= k < |polls| ==> !polls[k].isActive
    ensures r.Some? ==> r.value.poll in polls && r.value.poll.isActive
    ensures r.Some? ==> Counts(r.value.countA, r.value.countB) == GetVoteCounts(votes, r.value.poll.id)
  {
    match FirstActive(polls)
    case None => None
    case Some(p) =>
      var counts := GetVoteCounts(votes, p.id);
      Some(LivePage(p, counts.a, counts.b))
  }

  /** `display_no_votes()`: the active poll alone, with no counts. */
  function DisplayNoVotes(polls: seq<Poll>): (r: Option<Poll>)
    ensures r.None? <==> forall k :: 0 <= k < |polls| ==> !polls[k].isActive
    ensures r.Some? ==> r.value in polls && r.value.isActive
  {
    FirstActive(polls)
  }

  /** Both live pages show the same poll; only `/display` adds the counts. */
  lemma LivePagesAgree(polls: seq<Poll>, votes: seq<Vote>)
    ensures DisplayNoVotes(polls).None? <==> Display(polls, votes).None?
    ensures DisplayNoVotes(polls).Some? ==> DisplayNoVotes(polls).value == Display(polls, votes).value.poll
  {
  }

  // ---------------------------------------------------------------------------
  // /display-completed: the query

  /** The filter on the completed-polls query: the inactive polls, in table order. */
  function Inactive(polls: seq<Poll>): (r: seq<Poll>)
    ensures forall p :: p in r <==> p in polls && !p.isActive
    ensures forall p :: multiset(r)[p] == if p.isActive then 0 else multiset(polls)[p]
  {
    if polls == [] then []
    else
      assert polls == [polls[0]] + polls[1..];
      if polls[0].isActive then Inactive(polls[1..])
      else [polls[0]] + Inactive(polls[1..])
  }

  /** The filter keeps one row per inactive poll: all rows but the active ones. */
  lemma {:induction false} InactiveCount(polls: seq<Poll>)
    ensures |Inactive(polls)| == |polls| - ActiveCount(polls)
  {
    if polls != [] {
      InactiveCount(polls[1..]);
    }
  }

  /** Most recently created first. */
  predicate NewestFirst(s: seq<Poll>) {
    forall i, j :: 0 <= i < j < |s| ==> s[i].createdAt >= s[j].createdAt
  }

  /** Inserts `p` into a newest-first list, ahead of every poll not newer than it. */
  function InsertByCreation(p: Poll, s: seq<Poll>): (r: seq<Poll>)
    requires NewestFirst(s)
    ensures NewestFirst(r)
    ensures multiset(r) == multiset(s) + multiset{p}
    ensures forall q :: q in r ==> q == p || q in s
  {
    if s == [] || s[0].createdAt <= p.createdAt then [p] + s
    else
      var rest := InsertByCreation(p, s[1..]);
      assert s == [s[0]] + s[1..];
      HeadIsNewest(s, rest, p);
      [s[0]] + rest
  }

  /** The head of a newest-first list stays first ahead of its tail with an older poll inserted. */
  lemma HeadIsNewest(s: seq<Poll>, rest: seq<Poll>, p: Poll)
    requires s != [] && NewestFirst(s) && NewestFirst(rest)
    requires p.createdAt < s[0].createdAt
    requires forall q :: q in rest ==> q == p || q in s[1..]
    ensures NewestFirst([s[0]] + rest)
  {
    var r := [s[0]] + rest;
    forall i, j | 0 <= i < j < |r| ensures r[i].createdAt >= r[j].createdAt {
      if i == 0 {
        assert r[j] in rest;
      } else {
        assert r[i] == rest[i - 1] && r[j] == rest[j - 1];
      }
    }
  }

  /** The ordering of the completed-polls query: newest first, ties kept in table order. */
  function SortNewestFirst(polls: seq<Poll>): (r: seq<Poll>)
    ensures NewestFirst(r)
    ensures multiset(r) == multiset(polls)
  {
    if polls == [] then []
    else
      assert polls == [polls[0]] + polls[1..];
      InsertByCreation(polls[0], SortNewestFirst(polls[1..]))
  }

  /**
   * The polls `display_completed` lists: each inactive poll exactly as often
   * as it occurs in the table, no active poll, newest first.
   */
  function CompletedPolls(polls: seq<Poll>): (r: seq<Poll>)
    ensures NewestFirst(r)
    ensures forall p :: multiset(r)[p] == if p.isActive then 0 else multiset(polls)[p]
  {
    SortNewestFirst(Inactive(polls))
  }

  /**
   * The completed list is a permutation of the inactive query, holds exactly
   * the inactive polls and never an active one, is ordered newest first, and
   * has one entry per inactive row.
   */
  lemma CompletedPollsSpec(polls: seq<Poll>)
    ensures multiset(CompletedPolls(polls)) == multiset(Inactive(polls))
    ensures forall p :: p in CompletedPolls(polls) <==> p in polls && !p.isActive
    ensures NewestFirst(CompletedPolls(polls))
    ensures |CompletedPolls(polls)| == |polls| - ActiveCount(polls)
  {
    var c := CompletedPolls(polls);
    forall p ensures p in c <==> p in Inactive(polls) {
      assert p in c <==> p in multiset(c);
    }
    assert |c| == |multiset(c)| == |multiset(Inactive(polls))|;
    InactiveCount(polls);
  }

  // ---------------------------------------------------------------------------
  // /display-completed: the entries

  /**
   * A bar height `count / total * 100`, kept as the exact fraction
   * `part / total` (times 100); `Zero` is the value chosen when nothing was voted.
   */
  datatype Share = Zero | Fraction(part: nat, total: nat)

  /** The zero-total guard of the bar heights. */
  function Percents(countA: nat, countB: nat): (r: (Share, Share))
    ensures countA + countB == 0 <==> r == (Zero, Zero)
    ensures countA + countB > 0 ==>
      r.0.Fraction? && r.1.Fraction? && r.0.total == r.1.total == countA + countB
      && r.0.part == countA && r.1.part == countB
  {
    var total := countA + countB;
    if total > 0 then (Fraction(countA, total), Fraction(countB, total)) else (Zero, Zero)
  }

  /** A non-zero share never divides by zero, and the two bars make up the whole. */
  lemma PercentsWhole(countA: nat, countB: nat)
    requires countA + countB > 0
    ensures Percents(countA, countB).0.total > 0
    ensures Percents(countA, countB).0.part + Percents(countA, countB).1.part == Percents(countA, countB).0.total
  {
  }

  /** One element of `polls_with_counts`. */
  datatype CompletedEntry = CompletedEntry(
    poll: Poll,
    countA: nat,
    countB: nat,
    percentA: Share,
    percentB: Share)

  /** The entry `display_completed` builds for one poll. */
  function EntryFor(poll: Poll, votes: seq<Vote>): (e: CompletedEntry)
    ensures e.poll == poll
    ensures Counts(e.countA, e.countB) == GetVoteCounts(votes, poll.id)
    ensures (e.percentA, e.percentB) == Percents(e.countA, e.countB)
  {
    var counts := GetVoteCounts(votes, poll.id);
    var shares := Percents(counts.a, counts.b);
    CompletedEntry(poll, counts.a, counts.b, shares.0, shares.1)
  }

  /** What the completed entries inherit from the completed query and from `EntryFor`. */
  lemma CompletedEntriesFacts(polls: seq<Poll>, votes: seq<Vote>, entries: seq<CompletedEntry>)
    requires |entries| == |CompletedPolls(polls)|
    requires forall k :: 0 <= k < |entries| ==> entries[k] == EntryFor(CompletedPolls(polls)[k], votes)
    ensures |entries| == |polls| - ActiveCount(polls)
    ensures forall k :: 0 <= k < |entries| ==> entries[k].poll in polls && !entries[k].poll.isActive
    ensures forall i, j :: 0 <= i < j < |entries| ==> entries[i].poll.createdAt >= entries[j].poll.createdAt
    ensures forall k :: 0 <= k < |entries| && entries[k].countA + entries[k].countB == 0 ==>
      entries[k].percentA == Zero && entries[k].percentB == Zero
  {
    var completed := CompletedPolls(polls);
    CompletedPollsSpec(polls);
    forall k | 0 <= k < |entries| ensures entries[k].poll in polls && !entries[k].poll.isActive {
      assert entries[k].poll == completed[k] && completed[k] in completed;
    }
    forall i, j | 0 <= i < j < |entries| ensures entries[i].poll.createdAt >= entries[j].poll.createdAt {
      assert entries[i].poll == completed[i] && entries[j].poll == completed[j];
    }
  }

  /**
   * The loop of `display_completed`: one entry per poll of the query result,
   * in the same order, each with its tally and its bar heights.
   */
  method BuildEntries(completed: seq<Poll>, votes: seq<Vote>) returns (entries: seq<CompletedEntry>)
    ensures |entries| == |completed|
    ensures forall k :: 0 <= k < |entries| ==> entries[k] == EntryFor(completed[k], votes)
  {
    entries := [];
    for k := 0 to |completed|
      invariant |entries| == k
      invariant forall j :: 0 <= j < k ==> entries[j] == EntryFor(completed[j], votes)
    {
      var poll := completed[k];
      var counts := GetVoteCounts(votes, poll.id);
      var total := counts.a + counts.b;
      var percentA, percentB;
      if total > 0 {
        percentA, percentB := Fraction(counts.a, total), Fraction(counts.b, total);
      } else {
        percentA, percentB := Zero, Zero;
      }
      assert CompletedEntry(poll, counts.a, counts.b, percentA, percentB) == EntryFor(poll, votes);
      entries := entries + [CompletedEntry(poll, counts.a, counts.b, percentA, percentB)];
    }
  }

  /**
   * `display_completed()`: the completed-polls query, then one entry per
   * completed poll in query order.
   */
  method DisplayCompleted(polls: seq<Poll>, votes: seq<Vote>) returns (entries: seq<CompletedEntry>)
    ensures |entries| == |CompletedPolls(polls)| == |polls| - ActiveCount(polls)
    ensures forall k :: 0 <= k < |entries| ==> entries[k] == EntryFor(CompletedPolls(polls)[k], votes)
    ensures forall k :: 0 <= k < |entries| ==> entries[k].poll in polls && !entries[k].poll.isActive
    ensures forall i, j :: 0 <= i < j < |entries| ==> entries[i].poll.createdAt >= entries[j].poll.createdAt
    ensures forall k :: 0 <= k < |entries| && entries[k].countA + entries[k].countB == 0 ==>
      entries[k].percentA == Zero && entries[k].percentB == Zero
  {
    entries := BuildEntries(CompletedPolls(polls), votes);
    CompletedEntriesFacts(polls, votes, entries);
  }
}
