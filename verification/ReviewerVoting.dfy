/**
 * Three kinds of reviewers vote on a patch in rotation, each by its own confidence threshold;
 * a patch is approved by more than half of those who do not abstain.
 */
module ReviewerVoting {
  import opened Wrappers

  datatype Vote = Approve | Reject | Abstain

  /** The vote of reviewer i: quality, regression and simplicity reviewers in turn. */
  function VoteOf(i: nat, confidence: real): Vote {
    if i % 3 == 0 then
      if confidence >= 0.5 then Approve else Reject
    else if i % 3 == 1 then
      if confidence >= 0.6 then Approve else Reject
    else
      if confidence >= 0.4 then Approve else Abstain
  }

  function Count(votes: seq<Vote>, vote: Vote): (n: nat)
    ensures n <= |votes|
  {
    if votes == [] then 0 else Count(votes[..|votes| - 1], vote) + if votes[|votes| - 1] == vote then 1 else 0
  }

  predicate HasMajority(votes: seq<Vote>) {
    var nonAbstain := |votes| - Count(votes, Abstain);
    if nonAbstain == 0 then false else Count(votes, Approve) > nonAbstain / 2
  }

  function CastVotes(reviewers: nat, confidence: real): seq<Vote> {
    seq(reviewers, i requires 0 <= i < reviewers => VoteOf(i, confidence))
  }

  /** Whether a panel of this size approves a patch at this confidence. */
  predicate Approved(reviewers: nat, confidence: real) {
    confidence >= 0.6 || (confidence >= 0.5 && reviewers != 2)
  }

  datatype Panel = Panel(reviewers: nat)

  /** A panel has between 1 and 255 reviewers. */
  method NewPanel(reviewers: nat) returns (panel: Result<Panel, string>)
    requires reviewers < 256
    ensures panel.Ok? <==> reviewers > 0
    ensures panel.Ok? ==> panel.value.reviewers == reviewers
  {
    if reviewers == 0 {
      return Err("reviewer_count must be > 0");
    }
    return Ok(Panel(reviewers));
  }

  method CastAll(panel: Panel, confidence: real) returns (votes: seq<Vote>)
    ensures votes == CastVotes(panel.reviewers, confidence)
    ensures panel.reviewers > 0 ==> (HasMajority(votes) <==> Approved(panel.reviewers, confidence))
  {
    votes := [];
    for i := 0 to panel.reviewers
      invariant votes == CastVotes(i, confidence)
    {
      votes := votes + [VoteOf(i, confidence)];
    }
    if panel.reviewers > 0 {
      MajorityExactly(panel.reviewers, confidence);
    }
  }

  /** The patches of these confidences that a panel approves. */
  function ApprovedCount(reviewers: nat, confidences: seq<real>): nat {
    if confidences == [] then 0 else
    var last := |confidences| - 1;
    ApprovedCount(reviewers, confidences[..last]) + if Approved(reviewers, confidences[last]) then 1 else 0
  }

  /** One iteration: no panel without reviewers; otherwise, when patches apply by themselves, the approved ones do. */
  method RunIteration(reviewers: nat, confidences: seq<real>, autoApply: bool) returns (applied: Result<nat, string>)
    requires reviewers < 256
    ensures applied.Ok? <==> reviewers > 0
    ensures applied.Ok? ==> applied.value == if autoApply then ApprovedCount(reviewers, confidences) else 0
  {
    var panel := NewPanel(reviewers);
    if panel.Err? {
      return Err(panel.error);
    }
    var count := 0;
    for i := 0 to |confidences|
      invariant count == if autoApply then ApprovedCount(reviewers, confidences[..i]) else 0
    {
      assert confidences[..i + 1][..i] == confidences[..i];
      var votes := CastAll(panel.value, confidences[i]);
      if HasMajority(votes) && autoApply {
        count := count + 1;
      }
    }
    assert confidences[..|confidences|] == confidences;
    return Ok(count);
  }

  /** How many of the first n reviewers sit in seat k of the rotation. */
  function Seats(n: nat, k: nat): nat
    requires k < 3
  {
    (n + 2 - k) / 3
  }

  lemma SeatsNext(n: nat, k: nat)
    requires k < 3
    ensures Seats(n + 1, k) == Seats(n, k) + if n % 3 == k then 1 else 0
  {
  }

  lemma {:induction false} CountNext(votes: seq<Vote>, last: Vote, vote: Vote)
    ensures Count(votes + [last], vote) == Count(votes, vote) + if last == vote then 1 else 0
  {
    assert (votes + [last])[..|votes|] == votes;
  }

  /** The approvals and the abstentions of reviewer i. */
  function Approvals(i: nat, confidence: real): nat {
    if VoteOf(i, confidence).Approve? then 1 else 0
  }

  lemma ApprovalsOf(i: nat, confidence: real)
    ensures Approvals(i, confidence)
            == (if i % 3 == 0 && confidence >= 0.5 then 1 else 0) + (if i % 3 == 1 && confidence >= 0.6 then 1 else 0)
               + (if i % 3 == 2 && confidence >= 0.4 then 1 else 0)
    ensures VoteOf(i, confidence).Abstain? <==> i % 3 == 2 && confidence < 0.4
  {
  }

  lemma CastNext(n: nat, confidence: real)
    ensures Count(CastVotes(n + 1, confidence), Approve)
            == Count(CastVotes(n, confidence), Approve) + Approvals(n, confidence)
    ensures Count(CastVotes(n + 1, confidence), Abstain)
            == Count(CastVotes(n, confidence), Abstain) + if VoteOf(n, confidence).Abstain? then 1 else 0
  {
    var votes, last := CastVotes(n, confidence), VoteOf(n, confidence);
    assert CastVotes(n + 1, confidence) == votes + [last];
    CountNext(votes, last, Approve);
    CountNext(votes, last, Abstain);
  }

  function ApprovalTotal(n: nat, confidence: real): nat {
    (if confidence >= 0.5 then Seats(n, 0) else 0) + (if confidence >= 0.6 then Seats(n, 1) else 0)
    + (if confidence >= 0.4 then Seats(n, 2) else 0)
  }

  lemma TotalNext(n: nat, confidence: real)
    ensures ApprovalTotal(n + 1, confidence) == ApprovalTotal(n, confidence) + Approvals(n, confidence)
  {
    ApprovalsOf(n, confidence);
    SeatsNext(n, 0);
    SeatsNext(n, 1);
    SeatsNext(n, 2);
  }

  lemma {:induction false} CountApprovals(n: nat, confidence: real)
    ensures Count(CastVotes(n, confidence), Approve) == ApprovalTotal(n, confidence)
  {
    if n > 0 {
      CountApprovals(n - 1, confidence);
      CastNext(n - 1, confidence);
      TotalNext(n - 1, confidence);
    }
  }

  lemma {:induction false} CountAbstentions(n: nat, confidence: real)
    ensures Count(CastVotes(n, confidence), Abstain) == if confidence >= 0.4 then 0 else Seats(n, 2)
  {
    if n > 0 {
      CountAbstentions(n - 1, confidence);
      CastNext(n - 1, confidence);
      ApprovalsOf(n - 1, confidence);
      SeatsNext(n - 1, 2);
    }
  }

  /** The vote in closed form. */
  lemma {:induction false} MajorityExactly(n: nat, confidence: real)
    requires n > 0
    ensures HasMajority(CastVotes(n, confidence)) <==> Approved(n, confidence)
  {
    CountApprovals(n, confidence);
    CountAbstentions(n, confidence);
  }

  /** More confidence never loses an approval. */
  lemma {:induction false} MajorityMonotone(n: nat, lower: real, higher: real)
    requires n > 0 && lower <= higher && HasMajority(CastVotes(n, lower))
    ensures HasMajority(CastVotes(n, higher))
  {
    MajorityExactly(n, lower);
    MajorityExactly(n, higher);
  }
}
