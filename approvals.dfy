/**
 * The approvals table and the sequential approval queue built on it:
 * assign_approval, decide_approval, the approver-sequencing block of
 * page_start_request and the "My Approvals" selection.
 * Rows are kept in insertion order, which stands in for created_at order.
 */
module Approvals {
  import opened Wrappers
  import opened Directory
  import opened Documents


  /** The status column: queued | pending | approved | rejected. */
  datatype Status = Queued | Pending | Approved | Rejected

  /** The two decisions the "My Approvals" page offers. */
  datatype Decision = Approve | Reject

  /** The status a decision writes into the row it decides. */
  function StatusOf(d: Decision): Status
  {
    match d
    case Approve => Approved
    case Reject => Rejected
  }

  /** One approvals row: (document_id, assigned_to, status, comment). */
  datatype Approval = Approval(document: DocId, assignedTo: UserId, status: Status, comment: string)

  /** The WHERE clause of the first UPDATE in decide_approval. */
  predicate AwaitsDecision(r: Approval, doc: DocId, approver: UserId)
  {
    r.document == doc && r.assignedTo == approver && r.status == Pending
  }

  /** The WHERE clause of the promotion query in decide_approval. */
  predicate IsQueuedFor(r: Approval, doc: DocId)
  {
    r.document == doc && r.status == Queued
  }

  /** Phase one of decide_approval: every pending row of (doc, approver) takes the decision and the comment. */
  function RecordDecision(rows: seq<Approval>, doc: DocId, approver: UserId, d: Decision, comment: string): (r: seq<Approval>)
    ensures |r| == |rows|
    ensures forall i :: 0 <= i < |rows| && AwaitsDecision(rows[i], doc, approver) ==>
      r[i].document == doc && r[i].assignedTo == approver && r[i].status == StatusOf(d) && r[i].comment == comment
    ensures forall i :: 0 <= i < |rows| && !AwaitsDecision(rows[i], doc, approver) ==> r[i] == rows[i]
    ensures forall i :: 0 <= i < |rows| ==> !AwaitsDecision(r[i], doc, approver)
  {
    seq(|rows|, i requires 0 <= i < |rows| =>
      if AwaitsDecision(rows[i], doc, approver) then rows[i].(status := StatusOf(d), comment := comment)
      else rows[i])
  }

  /** The promotion query: a scan for the earliest-created queued row of `doc`. */
  function FirstQueued(rows: seq<Approval>, doc: DocId): (k: Option<nat>)
    ensures k.Some? ==> k.value < |rows|
  {
    if rows == [] then None
    else if IsQueuedFor(rows[0], doc) then Some(0)
    else match FirstQueued(rows[1..], doc)
      case None => None
      case Some(j) => Some(j + 1)
  }

  /**
   * FirstQueued finds a queued row of `doc` with no queued row of `doc`
   * before it, and None only when `doc` has no queued row at all.
   */
  lemma {:induction false} FirstQueuedSpec(rows: seq<Approval>, doc: DocId)
    ensures FirstQueued(rows, doc).Some? ==>
      var k := FirstQueued(rows, doc).value;
      k < |rows| && IsQueuedFor(rows[k], doc) && forall j :: 0 <= j < k ==> !IsQueuedFor(rows[j], doc)
    ensures FirstQueued(rows, doc).None? ==> forall j :: 0 <= j < |rows| ==> !IsQueuedFor(rows[j], doc)
  {
    if rows != [] && !IsQueuedFor(rows[0], doc) {
      FirstQueuedSpec(rows[1..], doc);
      assert forall j :: 0 < j < |rows| ==> rows[j] == rows[1..][j - 1];
    }
  }

  /** Phase two of decide_approval: the earliest queued row of `doc` becomes pending. */
  function Promote(rows: seq<Approval>, doc: DocId): (r: seq<Approval>)
    ensures |r| == |rows|
    ensures forall i :: 0 <= i < |rows| && r[i] != rows[i] ==>
      IsQueuedFor(rows[i], doc) && r[i] == rows[i].(status := Pending) &&
      forall j :: 0 <= j < i ==> !IsQueuedFor(rows[j], doc)
    ensures forall i :: 0 <= i < |rows| && IsQueuedFor(rows[i], doc) ==>
      exists k :: 0 <= k <= i && IsQueuedFor(rows[k], doc) && r[k].status == Pending
  {
    FirstQueuedSpec(rows, doc);
    match FirstQueued(rows, doc)
    case None => rows
    case Some(k) => rows[k := rows[k].(status := Pending)]
  }

  /** The table after decide_approval(doc, approver, d, comment). */
  function AfterDecision(rows: seq<Approval>, doc: DocId, approver: UserId, d: Decision, comment: string): (r: seq<Approval>)
    ensures |r| == |rows|
  {
    Promote(RecordDecision(rows, doc, approver, d, comment), doc)
  }

  /** The rows a new request adds for its resolved assignees: the first pending, every later one queued. */
  function InitialRows(doc: DocId, assignees: seq<UserId>): (r: seq<Approval>)
    ensures |r| == |assignees|
    ensures forall i :: 0 <= i < |assignees| ==>
      r[i].document == doc && r[i].assignedTo == assignees[i] && r[i].comment == ""
    ensures forall i :: 0 <= i < |assignees| ==>
      (r[i].status == Pending <==> i == 0) && (r[i].status == Queued <==> i > 0)
  {
    seq(|assignees|, i requires 0 <= i < |assignees| =>
      Approval(doc, assignees[i], if i == 0 then Pending else Queued, ""))
  }

  /** The rows for the first idx + 1 assignees extend those for the first idx by one row. */
  lemma InitialRowsStep(doc: DocId, assignees: seq<UserId>, idx: nat)
    requires idx < |assignees|
    ensures InitialRows(doc, assignees[..idx + 1]) ==
      InitialRows(doc, assignees[..idx]) + [Approval(doc, assignees[idx], if idx == 0 then Pending else Queued, "")]
  {
    var longer := InitialRows(doc, assignees[..idx + 1]);
    var shorter := InitialRows(doc, assignees[..idx]);
    forall i | 0 <= i < idx ensures longer[i] == shorter[i] {
      assert assignees[..idx + 1][i] == assignees[..idx][i];
    }
    assert assignees[..idx + 1][idx] == assignees[idx];
  }

  /** One line of the "My Approvals" list: (document_id, title, status, comment). */
  datatype PendingItem = PendingItem(document: DocId, title: string, status: Status, comment: string)

  /** Whether a row is listed on `user`'s "My Approvals" page (the JOIN drops rows of unknown documents). */
  predicate ListedFor(r: Approval, user: UserId, titles: map<DocId, string>)
  {
    r.assignedTo == user && r.status == Pending && r.document in titles
  }

  /**
   * The selection of page_my_approvals: the pending rows assigned to `user`
   * whose document exists, joined with the document title, oldest first.
   */
  function PendingFor(rows: seq<Approval>, user: UserId, titles: map<DocId, string>): (items: seq<PendingItem>)
    ensures |items| <= |rows|
    ensures forall it :: it in items ==>
      it.status == Pending && it.document in titles && it.title == titles[it.document] &&
      Approval(it.document, user, Pending, it.comment) in rows
    ensures forall r :: r in rows && ListedFor(r, user, titles) ==>
      PendingItem(r.document, titles[r.document], Pending, r.comment) in items
  {
    if rows == [] then []
    else
      var rest := PendingFor(rows[1..], user, titles);
      assert forall r :: r in rows[1..] ==> r in rows;
      var r := rows[0];
      if ListedFor(r, user, titles) then [PendingItem(r.document, titles[r.document], r.status, r.comment)] + rest
      else rest
  }

  /** The approvals table: a sequence of rows in insertion order. */
  class ApprovalTable {
    var rows: seq<Approval>

    /** An empty approvals table. */
    constructor ()
      ensures rows == []
    {
      rows := [];
    }

    /** assign_approval: append one row with an empty comment. */
    method Assign(doc: DocId, approver: UserId, status: Status)
      modifies this
      ensures rows == old(rows) + [Approval(doc, approver, status, "")]
    {
      rows := rows + [Approval(doc, approver, status, "")];
    }

    /**
     * decide_approval: record the decision on the approver's pending rows
     * of the document, then promote the document's earliest queued row,
     * whatever the decision and whether or not a row was decided.
     */
    method Decide(doc: DocId, approver: UserId, d: Decision, comment: string)
      modifies this
      ensures rows == AfterDecision(old(rows), doc, approver, d, comment)
    {
      rows := RecordDecision(rows, doc, approver, d, comment);
      var next := FirstQueued(rows, doc);
      if next.Some? {
        rows := rows[next.value := rows[next.value].(status := Pending)];
      }
    }

    /**
     * The approver sequencing of page_start_request for a request on `doc`:
     * resolve the template's names against the directory, then assign the
     * first resolved approver as pending and every later one as queued.
     * Returns the assignee list and the ticket's first assignee ("" if none).
     */
    method StartRequest(users: seq<User>, process: string, doc: DocId)
      returns (assignees: seq<UserId>, firstAssignee: UserId)
      requires process in ProcessTemplates
      modifies this
      ensures assignees == Resolve(users, ProcessTemplates[process])
      ensures firstAssignee == if assignees == [] then "" else assignees[0]
      ensures rows == old(rows) + InitialRows(doc, assignees)
    {
      assignees := ResolveAssignees(users, ProcessTemplates[process]);
      firstAssignee := if assignees != [] then assignees[0] else "";
      var idx := 0;
      while idx < |assignees|
        invariant 0 <= idx <= |assignees|
        invariant rows == old(rows) + InitialRows(doc, assignees[..idx])
      {
        Assign(doc, assignees[idx], if idx == 0 then Pending else Queued);
        InitialRowsStep(doc, assignees, idx);
        idx := idx + 1;
      }
      assert assignees[..idx] == assignees;
    }
  }
}
