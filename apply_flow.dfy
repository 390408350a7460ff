/**
 * handleApply: resolve duplicate contacts, plan the requests, issue them all,
 * and report the number of model entries once every request has succeeded.
 */
module ApplyFlow {
  import opened Wrappers
  import opened Domain
  import opened ModelBuilder
  import opened Disambiguator
  import opened Planner

  /** How an apply ends: the selection dialog was dismissed, some request
      failed (all of them were issued), or all succeeded and the entry count
      was reported. */
  datatype ApplyOutcome =
    | Cancelled
    | Failed(issued: seq<Operation>)
    | Applied(issued: seq<Operation>, notified: nat)

  /**
   * Issuing the requests together and waiting for all of them: every request
   * is sent; the refresh and the notification of `entries` happen only when
   * the labelling service accepts every one of them.
   */
  function Execute(ops: seq<Operation>, entries: nat, accepts: Operation -> bool): (r: ApplyOutcome)
    ensures !r.Cancelled? && r.issued == ops
    ensures r.Applied? <==> forall i :: 0 <= i < |ops| ==> accepts(ops[i])
    ensures r.Applied? ==> r.notified == entries
  {
    if forall i :: 0 <= i < |ops| ==> accepts(ops[i]) then Applied(ops, entries) else Failed(ops)
  }

  /**
   * The apply handler. `chosen` is what the email-selection dialog resolves
   * with (None when it is dismissed); it is consulted only when some contact
   * has more than one selected email. `accepts` says which requests the
   * labelling service carries out.
   */
  method HandleApply(model: SelectionModel, emails: seq<ContactEmail>, contacts: seq<Contact>,
                     chosen: Option<seq<ContactEmail>>, accepts: Operation -> bool)
    returns (outcome: ApplyOutcome)
    ensures Flagged(ContactIds(emails)) == [] ==>
      outcome == Execute(Plan(model, emails), |model|, accepts)
    ensures Flagged(ContactIds(emails)) != [] && chosen.None? ==> outcome == Cancelled
    ensures Flagged(ContactIds(emails)) != [] && chosen.Some? ==>
      outcome == Execute(Plan(model, chosen.value), |model|, accepts)
  {
    var selected := emails;
    var found, _ := CollectContacts(emails, contacts);
    if |found| > 0 {
      match chosen
      case None =>
        return Cancelled;
      case Some(s) =>
        selected := s;
    }
    outcome := Execute(Plan(model, selected), |model|, accepts);
  }

  /** Applying an untouched model issues nothing and still reports one per
      entry: the number of distinct groups, or 0 when either list is empty. */
  lemma ApplyUntouchedModel(groups: seq<Group>, sel: seq<ContactEmail>, accepts: Operation -> bool)
    ensures Execute(Plan(GetModel(groups, sel), sel), |GetModel(groups, sel)|, accepts)
         == Applied([], if |sel| == 0 || |groups| == 0 then 0 else |GroupIds(groups)|)
  {
    BuildThenPlanIsNoop(groups, sel);
    EntryCount(groups, sel);
  }
}
