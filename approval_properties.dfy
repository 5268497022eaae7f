/**
 * What decide_approval and the request sequencing promise about the
 * approvals table, stated over the specification functions of Approvals.
 */
module ApprovalProperties {
  import opened Wrappers
  import opened Directory
  import opened Approvals
  import opened Documents

  /** A row that has left the queue for good. */
  predicate IsFinal(r: Approval)
  {
    r.status == Approved || r.status == Rejected
  }

  /** No two rows of `doc` are pending at the same time. */
  predicate AtMostOnePending(rows: seq<Approval>, doc: DocId)
  {
    forall i, j ::
      (0 <= i < |rows| && 0 <= j < |rows| &&
       rows[i].document == doc && rows[i].status == Pending &&
       rows[j].document == doc && rows[j].status == Pending) ==> i == j
  }

  /** No row of the table belongs to `doc`. */
  predicate NoRowsOf(rows: seq<Approval>, doc: DocId)
  {
    forall i :: 0 <= i < |rows| ==> rows[i].document != doc
  }

  /** A queued row of `doc` with no queued row of `doc` before it is the one FirstQueued finds. */
  lemma {:induction false} FirstQueuedIs(rows: seq<Approval>, doc: DocId, k: nat)
    requires k < |rows| && IsQueuedFor(rows[k], doc)
    requires forall j :: 0 <= j < k ==> !IsQueuedFor(rows[j], doc)
    ensures FirstQueued(rows, doc) == Some(k)
  {
    FirstQueuedSpec(rows, doc);
  }

  /** Two tables of the same length with the same queued rows of `doc` promote the same row. */
  lemma {:induction false} FirstQueuedAgree(a: seq<Approval>, b: seq<Approval>, doc: DocId)
    requires |a| == |b|
    requires forall i :: 0 <= i < |a| ==> (IsQueuedFor(a[i], doc) <==> IsQueuedFor(b[i], doc))
    ensures FirstQueued(a, doc) == FirstQueued(b, doc)
  {
    FirstQueuedSpec(a, doc);
    FirstQueuedSpec(b, doc);
    match FirstQueued(a, doc)
    case None =>
    case Some(k) => FirstQueuedIs(b, doc, k);
  }

  /**
   * decide_approval row by row: a pending row of (doc, approver) takes the
   * decision and the comment; the earliest queued row of doc in the table
   * as it was becomes pending; every other row stays as it was; no row is
   * added or removed.
   */
  lemma {:induction false} AfterDecisionEffect(rows: seq<Approval>, doc: DocId, approver: UserId, d: Decision, comment: string)
    ensures |AfterDecision(rows, doc, approver, d, comment)| == |rows|
    ensures forall i :: 0 <= i < |rows| ==>
      AfterDecision(rows, doc, approver, d, comment)[i] ==
        if AwaitsDecision(rows[i], doc, approver) then rows[i].(status := StatusOf(d), comment := comment)
        else if FirstQueued(rows, doc) == Some(i) then rows[i].(status := Pending)
        else rows[i]
  {
    var mid := RecordDecision(rows, doc, approver, d, comment);
    FirstQueuedAgree(mid, rows, doc);
    FirstQueuedSpec(rows, doc);
  }

  /**
   * What a decision leaves alone: rows of other documents, rows already
   * approved or rejected, and pending rows of other approvers.
   */
  lemma DecisionFrame(rows: seq<Approval>, doc: DocId, approver: UserId, d: Decision, comment: string)
    ensures forall i :: 0 <= i < |rows| && rows[i].document != doc ==>
      AfterDecision(rows, doc, approver, d, comment)[i] == rows[i]
    ensures forall i :: 0 <= i < |rows| && IsFinal(rows[i]) ==>
      AfterDecision(rows, doc, approver, d, comment)[i] == rows[i]
    ensures forall i :: 0 <= i < |rows| && rows[i].status == Pending && rows[i].assignedTo != approver ==>
      AfterDecision(rows, doc, approver, d, comment)[i] == rows[i]
  {
    AfterDecisionEffect(rows, doc, approver, d, comment);
    FirstQueuedSpec(rows, doc);
  }

  /**
   * Exactly the earliest queued row of doc is promoted, if there is one;
   * no other row changes from queued to pending.
   */
  lemma PromotesEarliestQueued(rows: seq<Approval>, doc: DocId, approver: UserId, d: Decision, comment: string)
    ensures forall i ::
      (0 <= i < |rows| && rows[i].status == Queued &&
       AfterDecision(rows, doc, approver, d, comment)[i].status == Pending) ==>
      FirstQueued(rows, doc) == Some(i)
    ensures forall k :: FirstQueued(rows, doc) == Some(k) ==>
      AfterDecision(rows, doc, approver, d, comment)[k] == rows[k].(status := Pending)
    ensures (forall i :: 0 <= i < |rows| ==> !IsQueuedFor(rows[i], doc)) ==>
      forall i :: 0 <= i < |rows| && !AwaitsDecision(rows[i], doc, approver) ==>
        AfterDecision(rows, doc, approver, d, comment)[i] == rows[i]
  {
    AfterDecisionEffect(rows, doc, approver, d, comment);
    FirstQueuedSpec(rows, doc);
  }

  /**
   * A rejection advances the queue exactly as an approval does: the two
   * outcomes differ only in the rows being decided.
   */
  lemma RejectionDoesNotShortCircuit(rows: seq<Approval>, doc: DocId, approver: UserId, comment: string)
    ensures |AfterDecision(rows, doc, approver, Reject, comment)| == |AfterDecision(rows, doc, approver, Approve, comment)|
    ensures forall i :: 0 <= i < |rows| ==>
      AfterDecision(rows, doc, approver, Reject, comment)[i] ==
        if AwaitsDecision(rows[i], doc, approver)
        then AfterDecision(rows, doc, approver, Approve, comment)[i].(status := Rejected)
        else AfterDecision(rows, doc, approver, Approve, comment)[i]
  {
    AfterDecisionEffect(rows, doc, approver, Reject, comment);
    AfterDecisionEffect(rows, doc, approver, Approve, comment);
  }

  /**
   * A repeated decision cannot change a row the first one decided, and
   * neither call changes the number of rows.
   */
  lemma RepeatDecisionKeepsDecided(rows: seq<Approval>, doc: DocId, approver: UserId,
                                   d1: Decision, c1: string, d2: Decision, c2: string)
    ensures |AfterDecision(AfterDecision(rows, doc, approver, d1, c1), doc, approver, d2, c2)| == |rows|
    ensures forall i :: 0 <= i < |rows| && AwaitsDecision(rows[i], doc, approver) ==>
      AfterDecision(AfterDecision(rows, doc, approver, d1, c1), doc, approver, d2, c2)[i] ==
        rows[i].(status := StatusOf(d1), comment := c1)
  {
    var once := AfterDecision(rows, doc, approver, d1, c1);
    AfterDecisionEffect(rows, doc, approver, d1, c1);
    DecisionFrame(once, doc, approver, d2, c2);
    AfterDecisionEffect(once, doc, approver, d2, c2);
  }

  /**
   * When the decider holds a pending row of the document (the only way the
   * "My Approvals" page calls decide_approval), a document with at most one
   * pending row keeps at most one.
   */
  lemma DecisionKeepsSinglePending(rows: seq<Approval>, doc: DocId, approver: UserId, d: Decision, comment: string, k: nat)
    requires k < |rows| && AwaitsDecision(rows[k], doc, approver)
    requires AtMostOnePending(rows, doc)
    ensures AtMostOnePending(AfterDecision(rows, doc, approver, d, comment), doc)
  {
    var after := AfterDecision(rows, doc, approver, d, comment);
    AfterDecisionEffect(rows, doc, approver, d, comment);
    forall i | 0 <= i < |after| && after[i].document == doc && after[i].status == Pending
      ensures FirstQueued(rows, doc) == Some(i)
    {
    }
  }

  /**
   * As written, the promotion does not depend on phase one matching a row:
   * a decision by someone with no pending row still promotes, and leaves
   * two pending rows on one document.
   */
  lemma DecisionWithoutPendingRowStillPromotes()
    ensures var rows := [Approval("doc", "u-a", Pending, ""), Approval("doc", "u-b", Queued, "")];
      AtMostOnePending(rows, "doc") &&
      AfterDecision(rows, "doc", "u-c", Approve, "") ==
        [Approval("doc", "u-a", Pending, ""), Approval("doc", "u-b", Pending, "")] &&
      !AtMostOnePending(AfterDecision(rows, "doc", "u-c", Approve, ""), "doc")
  {
    var rows := [Approval("doc", "u-a", Pending, ""), Approval("doc", "u-b", Queued, "")];
    FirstQueuedIs(RecordDecision(rows, "doc", "u-c", Approve, ""), "doc", 1);
    var after := AfterDecision(rows, "doc", "u-c", Approve, "");
    assert after[0].status == Pending && after[1].status == Pending;
  }

  /**
   * As written, deciding twice promotes twice: after the first approver of
   * a three-step request approves and the call is repeated, the second and
   * the third approver are both pending.
   */
  lemma RepeatDecisionPromotesAgain()
    ensures var rows := InitialRows("doc", ["u-a", "u-b", "u-c"]);
      var twice := AfterDecision(AfterDecision(rows, "doc", "u-a", Approve, ""), "doc", "u-a", Approve, "");
      twice == [Approval("doc", "u-a", Approved, ""), Approval("doc", "u-b", Pending, ""), Approval("doc", "u-c", Pending, "")]
  {
    var rows := InitialRows("doc", ["u-a", "u-b", "u-c"]);
    assert rows == [Approval("doc", "u-a", Pending, ""), Approval("doc", "u-b", Queued, ""), Approval("doc", "u-c", Queued, "")];
    var mid := RecordDecision(rows, "doc", "u-a", Approve, "");
    FirstQueuedIs(mid, "doc", 1);
    var once := AfterDecision(rows, "doc", "u-a", Approve, "");
    assert once == [Approval("doc", "u-a", Approved, ""), Approval("doc", "u-b", Pending, ""), Approval("doc", "u-c", Queued, "")];
    FirstQueuedIs(RecordDecision(once, "doc", "u-a", Approve, ""), "doc", 2);
  }

  /** A new request's rows never hold two pending rows of the document. */
  lemma InitialRowsOnePending(doc: DocId, assignees: seq<UserId>)
    ensures AtMostOnePending(InitialRows(doc, assignees), doc)
  {
  }

  /** One decision of the queue: the approver's decision and comment. */
  datatype Verdict = Verdict(decision: Decision, comment: string)

  /**
   * A request part-way through its queue: the first |verdicts| approvers
   * have decided, the next one is pending and the rest are queued.
   */
  function Progress(doc: DocId, assignees: seq<UserId>, verdicts: seq<Verdict>): seq<Approval>
    requires |verdicts| <= |assignees|
  {
    seq(|assignees|, i requires 0 <= i < |assignees| => ProgressRow(doc, assignees, verdicts, i))
  }

  /** Row i of Progress: decided, pending (the approver whose turn it is) or queued. */
  function ProgressRow(doc: DocId, assignees: seq<UserId>, verdicts: seq<Verdict>, i: nat): Approval
    requires i < |assignees|
  {
    if i < |verdicts| then Approval(doc, assignees[i], StatusOf(verdicts[i].decision), verdicts[i].comment)
    else Approval(doc, assignees[i], if i == |verdicts| then Pending else Queued, "")
  }

  /** A new request is a queue in which nobody has decided yet. */
  lemma InitialRowsIsProgress(doc: DocId, assignees: seq<UserId>)
    ensures InitialRows(doc, assignees) == Progress(doc, assignees, [])
  {
  }

  /**
   * The sequential walk: when the pending approver of a request decides,
   * that row takes the decision and the next approver becomes pending,
   * whether the decision was an approval or a rejection; rows of other
   * documents around the request are untouched.
   */
  lemma {:induction false} DecisionAdvancesQueue(before: seq<Approval>, after: seq<Approval>, doc: DocId,
                              assignees: seq<UserId>, verdicts: seq<Verdict>, v: Verdict)
    requires |verdicts| < |assignees|
    requires NoRowsOf(before, doc) && NoRowsOf(after, doc)
    ensures AfterDecision(before + Progress(doc, assignees, verdicts) + after, doc, assignees[|verdicts|], v.decision, v.comment)
      == before + Progress(doc, assignees, verdicts + [v]) + after
  {
    var rows := before + Progress(doc, assignees, verdicts) + after;
    var expected := before + Progress(doc, assignees, verdicts + [v]) + after;
    var result := AfterDecision(rows, doc, assignees[|verdicts|], v.decision, v.comment);
    AfterDecisionEffect(rows, doc, assignees[|verdicts|], v.decision, v.comment);
    forall i | 0 <= i < |rows| ensures result[i] == expected[i] {
      DecisionAdvancesRow(before, after, doc, assignees, verdicts, v, i);
    }
  }

  /** DecisionAdvancesQueue for a single row. */
  lemma {:induction false} DecisionAdvancesRow(before: seq<Approval>, after: seq<Approval>, doc: DocId,
                            assignees: seq<UserId>, verdicts: seq<Verdict>, v: Verdict, i: nat)
    requires |verdicts| < |assignees|
    requires NoRowsOf(before, doc) && NoRowsOf(after, doc)
    requires i < |before| + |assignees| + |after|
    ensures |AfterDecision(before + Progress(doc, assignees, verdicts) + after, doc, assignees[|verdicts|], v.decision, v.comment)|
      == |before| + |assignees| + |after|
    ensures AfterDecision(before + Progress(doc, assignees, verdicts) + after, doc, assignees[|verdicts|], v.decision, v.comment)[i]
      == (before + Progress(doc, assignees, verdicts + [v]) + after)[i]
  {
    var p := Progress(doc, assignees, verdicts);
    var p' := Progress(doc, assignees, verdicts + [v]);
    var rows := before + p + after;
    NextInQueue(before, after, doc, assignees, verdicts);
    AfterDecisionAt(rows, doc, assignees[|verdicts|], v.decision, v.comment, i);
    RowOfSandwich(before, p, after, i);
    RowOfSandwich(before, p', after, i);
    if |before| <= i < |before| + |p| {
      ProgressRowStep(doc, assignees, verdicts, v, i - |before|);
    }
  }

  /** AfterDecisionEffect for a single row. */
  lemma {:induction false} AfterDecisionAt(rows: seq<Approval>, doc: DocId, approver: UserId, d: Decision, comment: string, i: nat)
    requires i < |rows|
    ensures |AfterDecision(rows, doc, approver, d, comment)| == |rows|
    ensures AfterDecision(rows, doc, approver, d, comment)[i] ==
      if AwaitsDecision(rows[i], doc, approver) then rows[i].(status := StatusOf(d), comment := comment)
      else if FirstQueued(rows, doc) == Some(i) then rows[i].(status := Pending)
      else rows[i]
  {
    AfterDecisionEffect(rows, doc, approver, d, comment);
  }

  /** How one decision by the approver whose turn it is changes a single Progress row. */
  lemma ProgressRowStep(doc: DocId, assignees: seq<UserId>, verdicts: seq<Verdict>, v: Verdict, j: nat)
    requires |verdicts| < |assignees| && j < |assignees|
    ensures Progress(doc, assignees, verdicts + [v])[j] ==
      var r := Progress(doc, assignees, verdicts)[j];
      if AwaitsDecision(r, doc, assignees[|verdicts|]) then r.(status := StatusOf(v.decision), comment := v.comment)
      else if j == |verdicts| + 1 then r.(status := Pending)
      else r
  {
    if j < |verdicts| {
      assert (verdicts + [v])[j] == verdicts[j];
    }
  }

  /** Where row i of before + p + after comes from. */
  lemma RowOfSandwich(before: seq<Approval>, p: seq<Approval>, after: seq<Approval>, i: nat)
    requires i < |before| + |p| + |after|
    ensures i < |before| ==> (before + p + after)[i] == before[i]
    ensures |before| <= i < |before| + |p| ==> (before + p + after)[i] == p[i - |before|]
    ensures |before| + |p| <= i ==> (before + p + after)[i] == after[i - |before| - |p|]
  {
  }

  /** Mid-queue, the row promoted next is the one after the pending approver's, if any. */
  lemma {:induction false} NextInQueue(before: seq<Approval>, after: seq<Approval>, doc: DocId,
                    assignees: seq<UserId>, verdicts: seq<Verdict>)
    requires |verdicts| < |assignees|
    requires NoRowsOf(before, doc) && NoRowsOf(after, doc)
    ensures FirstQueued(before + Progress(doc, assignees, verdicts) + after, doc) ==
      if |verdicts| + 1 < |assignees| then Some(|before| + |verdicts| + 1) else None
  {
    var p := Progress(doc, assignees, verdicts);
    NextInProgress(doc, assignees, verdicts);
    HeadBetweenForeignRows(before, p, after, doc);
    if |verdicts| + 1 < |assignees| {
      assert FirstQueued(p, doc) == Some(|verdicts| + 1);
    } else {
      assert FirstQueued(p, doc) == None;
    }
  }

  /** Rows of other documents around a table shift its queue head by the number before it. */
  lemma {:induction false} HeadBetweenForeignRows(before: seq<Approval>, p: seq<Approval>, after: seq<Approval>, doc: DocId)
    requires NoRowsOf(before, doc) && NoRowsOf(after, doc)
    ensures FirstQueued(before + p + after, doc) ==
      if FirstQueued(p, doc).Some? then Some(|before| + FirstQueued(p, doc).value) else None
  {
    HeadIgnoresForeignTail(p, after, doc);
    HeadSkipsForeignPrefix(before, p + after, doc);
    assert before + p + after == before + (p + after);
  }

  /** Rows of other documents after the queue do not change its head. */
  lemma {:induction false} HeadIgnoresForeignTail(a: seq<Approval>, b: seq<Approval>, doc: DocId)
    requires NoRowsOf(b, doc)
    ensures FirstQueued(a + b, doc) == FirstQueued(a, doc)
  {
    NoQueuedRowsOf(b, doc);
    match FirstQueued(a, doc)
    case Some(k) => QueuedInFirstPart(a, b, doc, k);
    case None => NoQueuedInEither(a, b, doc);
  }

  /** Rows of other documents before the queue shift its head by their number. */
  lemma {:induction false} HeadSkipsForeignPrefix(a: seq<Approval>, b: seq<Approval>, doc: DocId)
    requires NoRowsOf(a, doc)
    ensures FirstQueued(a + b, doc) ==
      if FirstQueued(b, doc).Some? then Some(|a| + FirstQueued(b, doc).value) else None
  {
    NoQueuedRowsOf(a, doc);
    QueuedInSecondPart(a, b, doc);
  }

  /** Within a request's own rows, the next approver in line is the queue head. */
  lemma {:induction false} NextInProgress(doc: DocId, assignees: seq<UserId>, verdicts: seq<Verdict>)
    requires |verdicts| < |assignees|
    ensures FirstQueued(Progress(doc, assignees, verdicts), doc) ==
      if |verdicts| + 1 < |assignees| then Some(|verdicts| + 1) else None
  {
    var p := Progress(doc, assignees, verdicts);
    if |verdicts| + 1 < |assignees| {
      FirstQueuedIs(p, doc, |verdicts| + 1);
    } else {
      assert forall i :: 0 <= i < |p| ==> !IsQueuedFor(p[i], doc);
      FirstQueuedSpec(p, doc);
    }
  }

  /** A table with no row of `doc` has no queue head for it. */
  lemma {:induction false} NoQueuedRowsOf(rows: seq<Approval>, doc: DocId)
    requires NoRowsOf(rows, doc)
    ensures FirstQueued(rows, doc) == None
  {
    FirstQueuedSpec(rows, doc);
  }

  /** A queue head in the first part of a concatenation is the head of the whole. */
  lemma {:induction false} QueuedInFirstPart(a: seq<Approval>, b: seq<Approval>, doc: DocId, k: nat)
    requires FirstQueued(a, doc) == Some(k)
    ensures FirstQueued(a + b, doc) == Some(k)
  {
    assert (a + b)[0] == a[0];
    if k > 0 {
      assert (a + b)[1..] == a[1..] + b;
      QueuedInFirstPart(a[1..], b, doc, k - 1);
    }
  }

  /** With no queued row of `doc` in the first part, the head is the second part's, shifted. */
  lemma {:induction false} QueuedInSecondPart(a: seq<Approval>, b: seq<Approval>, doc: DocId)
    requires FirstQueued(a, doc) == None
    ensures FirstQueued(a + b, doc) ==
      if FirstQueued(b, doc).Some? then Some(|a| + FirstQueued(b, doc).value) else None
  {
    if a == [] {
      assert a + b == b;
    } else {
      assert (a + b)[0] == a[0];
      assert (a + b)[1..] == a[1..] + b;
      QueuedInSecondPart(a[1..], b, doc);
    }
  }

  /** Neither part having a queued row of `doc`, the whole has none. */
  lemma {:induction false} NoQueuedInEither(a: seq<Approval>, b: seq<Approval>, doc: DocId)
    requires FirstQueued(a, doc) == None && FirstQueued(b, doc) == None
    ensures FirstQueued(a + b, doc) == None
  {
    QueuedInSecondPart(a, b, doc);
  }

  /** The table after each approver in turn has given the corresponding verdict. */
  function DecideInTurn(rows: seq<Approval>, doc: DocId, assignees: seq<UserId>, verdicts: seq<Verdict>): seq<Approval>
    requires |verdicts| <= |assignees|
  {
    if verdicts == [] then rows
    else
      var n := |verdicts| - 1;
      AfterDecision(DecideInTurn(rows, doc, assignees, verdicts[..n]), doc, assignees[n], verdicts[n].decision, verdicts[n].comment)
  }

  /**
   * Starting a request and letting its approvers decide in turn reaches the
   * queue state with those verdicts recorded; after all of them have
   * decided, no row of the document is pending or queued any more.
   */
  lemma {:induction false} DecidingInTurnRecordsVerdicts(before: seq<Approval>, after: seq<Approval>, doc: DocId,
                                                         assignees: seq<UserId>, verdicts: seq<Verdict>)
    requires |verdicts| <= |assignees|
    requires NoRowsOf(before, doc) && NoRowsOf(after, doc)
    ensures DecideInTurn(before + InitialRows(doc, assignees) + after, doc, assignees, verdicts)
      == before + Progress(doc, assignees, verdicts) + after
    ensures |verdicts| == |assignees| ==> forall i :: 0 <= i < |assignees| ==>
      IsFinal(Progress(doc, assignees, verdicts)[i])
  {
    if verdicts == [] {
      InitialRowsIsProgress(doc, assignees);
    } else {
      var n := |verdicts| - 1;
      DecidingInTurnRecordsVerdicts(before, after, doc, assignees, verdicts[..n]);
      DecisionAdvancesQueue(before, after, doc, assignees, verdicts[..n], verdicts[n]);
      assert verdicts[..n] + [verdicts[n]] == verdicts;
    }
  }

  /** The "My Approvals" list keeps table order: listing a concatenation lists each part in turn. */
  lemma {:induction false} PendingForConcat(a: seq<Approval>, b: seq<Approval>, user: UserId, titles: map<DocId, string>)
    ensures PendingFor(a + b, user, titles) == PendingFor(a, user, titles) + PendingFor(b, user, titles)
  {
    if a == [] {
      assert a + b == b;
    } else {
      assert (a + b)[1..] == a[1..] + b;
      PendingForConcat(a[1..], b, user, titles);
    }
  }

  /**
   * Mid-queue, the document shows up on exactly one approver's "My
   * Approvals" page: the one whose turn it is.
   */
  lemma OnlyCurrentApproverSeesRequest(doc: DocId, assignees: seq<UserId>, verdicts: seq<Verdict>,
                                       user: UserId, titles: map<DocId, string>)
    requires |verdicts| <= |assignees|
    requires doc in titles
    ensures forall it :: it in PendingFor(Progress(doc, assignees, verdicts), user, titles) ==>
      |verdicts| < |assignees| && assignees[|verdicts|] == user
    ensures |verdicts| < |assignees| && assignees[|verdicts|] == user ==>
      PendingItem(doc, titles[doc], Pending, "") in PendingFor(Progress(doc, assignees, verdicts), user, titles)
  {
    var p := Progress(doc, assignees, verdicts);
    var n := |verdicts|;
    var items := PendingFor(p, user, titles);
    if n < |assignees| && assignees[n] == user {
      assert p[n] == ProgressRow(doc, assignees, verdicts, n) == Approval(doc, user, Pending, "");
      assert p[n] in p && ListedFor(p[n], user, titles);
    }
    forall it | it in items ensures n < |assignees| && assignees[n] == user {
      assert Approval(it.document, user, Pending, it.comment) in p;
      var i :| 0 <= i < |p| && p[i] == Approval(it.document, user, Pending, it.comment);
      assert p[i] == ProgressRow(doc, assignees, verdicts, i);
    }
  }
}
