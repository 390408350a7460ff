/**
 * The batch-diff planner of handleApply: for each model entry, which email
 * IDs to label or unlabel. Stands in for the labelling and unlabelling
 * requests the component issues.
 */
module Planner {
  import opened Wrappers
  import opened Domain
  import opened ModelBuilder
  import opened SelectionEditor

  datatype Kind = Add | Remove

  /** One labelContactEmails (Add) or unLabelContactEmails (Remove) request. */
  datatype Operation = Operation(groupId: GroupId, kind: Kind, emailIds: seq<EmailId>)

  /** The IDs of the selected emails lacking group g, in selection order. */
  function ToLabel(sel: seq<ContactEmail>, g: GroupId): (ids: seq<EmailId>)
    ensures |ids| <= |sel|
    ensures |ids| == 0 <==> forall k :: 0 <= k < |sel| ==> HasLabel(sel[k], g)
  {
    FilterExtremes(sel, g, false);
    EmailIds(Filter(sel, g, false))
  }

  /** The IDs of the selected emails carrying group g, in selection order. */
  function ToUnlabel(sel: seq<ContactEmail>, g: GroupId): (ids: seq<EmailId>)
    ensures |ids| <= |sel|
    ensures |ids| == 0 <==> forall k :: 0 <= k < |sel| ==> !HasLabel(sel[k], g)
  {
    FilterExtremes(sel, g, true);
    EmailIds(Filter(sel, g, true))
  }

  /** The request one entry gives rise to, if any. */
  function EntryOperation(e: Entry, sel: seq<ContactEmail>): (r: Option<Operation>)
    ensures r.Some? ==> r.value.groupId == e.groupId && |r.value.emailIds| > 0
    ensures e.state == Indeterminate ==> r.None?
    ensures e.state == Checked ==>
      (r.None? <==> forall k :: 0 <= k < |sel| ==> HasLabel(sel[k], e.groupId))
    ensures e.state == Unchecked ==>
      (r.None? <==> forall k :: 0 <= k < |sel| ==> !HasLabel(sel[k], e.groupId))
    ensures e.state == Checked && r.Some? ==> r.value == Operation(e.groupId, Add, ToLabel(sel, e.groupId))
    ensures e.state == Unchecked && r.Some? ==> r.value == Operation(e.groupId, Remove, ToUnlabel(sel, e.groupId))
  {
    FilterExtremes(sel, e.groupId, false);
    FilterExtremes(sel, e.groupId, true);
    match e.state
    case Indeterminate => None
    case Checked =>
      var toLabel := ToLabel(sel, e.groupId);
      if |toLabel| == 0 then None else Some(Operation(e.groupId, Add, toLabel))
    case Unchecked =>
      var toUnlabel := ToUnlabel(sel, e.groupId);
      if |toUnlabel| == 0 then None else Some(Operation(e.groupId, Remove, toUnlabel))
  }

  /** The requests for all entries, in the model's entry order. */
  function Plan(m: SelectionModel, sel: seq<ContactEmail>): (ops: seq<Operation>)
    ensures |ops| <= |m|
    ensures forall op :: op in ops ==> |op.emailIds| > 0 && op.groupId in Keys(m)
  {
    if m == [] then []
    else AsSeq(EntryOperation(m[0], sel)) + Plan(m[1..], sel)
  }

  /** The requests of a plan that target group g. */
  function OpsFor(ops: seq<Operation>, g: GroupId): (r: seq<Operation>)
    ensures forall op :: op in r <==> op in ops && op.groupId == g
  {
    if ops == [] then []
    else (if ops[0].groupId == g then [ops[0]] else []) + OpsFor(ops[1..], g)
  }

  lemma {:induction false} OpsForAppend(a: seq<Operation>, b: seq<Operation>, g: GroupId)
    ensures OpsFor(a + b, g) == OpsFor(a, g) + OpsFor(b, g)
    decreases |a|
  {
    if a == [] {
      assert a + b == b;
    } else {
      assert (a + b)[0] == a[0];
      assert (a + b)[1..] == a[1..] + b;
      OpsForAppend(a[1..], b, g);
    }
  }

  /** What the plan does for group g is exactly what g's entry asks for:
      nothing when g has no entry, otherwise that entry's request if it has one. */
  lemma {:induction false} PlanPerGroup(m: SelectionModel, sel: seq<ContactEmail>, g: GroupId)
    requires DistinctKeys(m)
    ensures OpsFor(Plan(m, sel), g) ==
      match Lookup(m, g)
      case None => []
      case Some(s) => AsSeq(EntryOperation(Entry(g, s), sel))
  {
    if m != [] {
      HeadKeyNotInTail(m);
      PlanPerGroup(m[1..], sel, g);
      OpsForAppend(AsSeq(EntryOperation(m[0], sel)), Plan(m[1..], sel), g);
    }
  }

  /** Every request in a plan is the one its group's entry asks for: an Add of
      the emails lacking the group for a Checked entry, a Remove of the emails
      carrying it for an Unchecked one — never one for an Indeterminate entry. */
  lemma PlannedOperation(m: SelectionModel, sel: seq<ContactEmail>, op: Operation)
    requires DistinctKeys(m)
    requires op in Plan(m, sel)
    ensures Lookup(m, op.groupId) == Some(Checked) || Lookup(m, op.groupId) == Some(Unchecked)
    ensures Lookup(m, op.groupId) == Some(Checked) ==> op == Operation(op.groupId, Add, ToLabel(sel, op.groupId))
    ensures Lookup(m, op.groupId) == Some(Unchecked) ==> op == Operation(op.groupId, Remove, ToUnlabel(sel, op.groupId))
  {
    PlanPerGroup(m, sel, op.groupId);
    assert op in OpsFor(Plan(m, sel), op.groupId);
  }

  /** An entry whose state already matches the selection asks for nothing. */
  lemma SettledEntry(sel: seq<ContactEmail>, g: GroupId)
    ensures EntryOperation(Entry(g, Membership(sel, g)), sel) == None
  {
    MembershipMeaning(sel, g);
  }

  /** A model all of whose entries ask for nothing plans nothing. */
  lemma {:induction false} PlanSettled(m: SelectionModel, sel: seq<ContactEmail>)
    requires forall i :: 0 <= i < |m| ==> EntryOperation(m[i], sel) == None
    ensures Plan(m, sel) == []
  {
    if m != [] {
      assert forall i :: 0 <= i < |m[1..]| ==> m[1..][i] == m[i + 1];
      PlanSettled(m[1..], sel);
    }
  }

  /** On such a model, one assignment plans at most the assigned entry's request. */
  lemma {:induction false} PlanAfterAssign(m: SelectionModel, sel: seq<ContactEmail>, g: GroupId, v: State)
    requires forall i :: 0 <= i < |m| ==> EntryOperation(m[i], sel) == None
    ensures Plan(Assign(m, g, v), sel) == AsSeq(EntryOperation(Entry(g, v), sel))
  {
    var r := Assign(m, g, v);
    if m == [] {
      assert r == [Entry(g, v)];
      assert Plan(r, sel) == AsSeq(EntryOperation(Entry(g, v), sel)) + Plan([], sel);
    } else {
      assert forall i :: 0 <= i < |m[1..]| ==> m[1..][i] == m[i + 1];
      if m[0].groupId == g {
        assert r == [Entry(g, v)] + m[1..];
        assert r[1..] == m[1..];
        PlanSettled(m[1..], sel);
        assert Plan(r, sel) == AsSeq(EntryOperation(Entry(g, v), sel)) + Plan(m[1..], sel);
      } else {
        var rest := Assign(m[1..], g, v);
        assert r == [m[0]] + rest;
        assert r[1..] == rest;
        PlanAfterAssign(m[1..], sel, g, v);
        assert Plan(r, sel) == AsSeq(EntryOperation(m[0], sel)) + Plan(rest, sel);
      }
    }
  }

  /** Planning on a freshly built model with the same selection issues no request. */
  lemma BuildThenPlanIsNoop(groups: seq<Group>, sel: seq<ContactEmail>)
    ensures Plan(GetModel(groups, sel), sel) == []
  {
    var m := GetModel(groups, sel);
    EntriesHoldMembership(groups, sel);
    forall i | 0 <= i < |m| ensures EntryOperation(m[i], sel) == None {
      SettledEntry(sel, m[i].groupId);
    }
    PlanSettled(m, sel);
  }

  /** Toggling one group on a freshly built model plans at most one request,
      for that group, as its new Checked or Unchecked state asks. */
  lemma ToggleThenPlan(groups: seq<Group>, sel: seq<ContactEmail>, g: GroupId, checked: bool)
    ensures Plan(Toggle(GetModel(groups, sel), g, checked), sel)
         == AsSeq(EntryOperation(Entry(g, FromChecked(checked)), sel))
  {
    var m := GetModel(groups, sel);
    EntriesHoldMembership(groups, sel);
    forall i | 0 <= i < |m| ensures EntryOperation(m[i], sel) == None {
      SettledEntry(sel, m[i].groupId);
    }
    PlanAfterAssign(m, sel, g, FromChecked(checked));
  }

  /** The planned ID lists hold exactly the selected emails that need the change. */
  lemma ToLabelExactly(sel: seq<ContactEmail>, g: GroupId, x: EmailId)
    ensures x in ToLabel(sel, g) <==> exists k :: 0 <= k < |sel| && sel[k].id == x && !HasLabel(sel[k], g)
    ensures x in ToUnlabel(sel, g) <==> exists k :: 0 <= k < |sel| && sel[k].id == x && HasLabel(sel[k], g)
  {
    FilteredIdsExactly(sel, g, false, x);
    FilteredIdsExactly(sel, g, true, x);
  }
}
