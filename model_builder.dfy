/**
 * Building the initial dropdown model (getModel): one tri-state entry per
 * contact group, summarising how many of the selected emails carry it.
 */
module ModelBuilder {
  import opened Wrappers
  import opened Domain

  /** The state of group g over the selection: count the emails carrying g;
      none gives Unchecked, all gives Checked, anything between Indeterminate. */
  function Membership(sel: seq<ContactEmail>, g: GroupId): (s: State)
    ensures |sel| == 0 ==> s == Unchecked
    ensures s == Checked ==> |Filter(sel, g, false)| == 0
  {
    FilterExtremes(sel, g, true);
    FilterExtremes(sel, g, false);
    var inGroup := |Filter(sel, g, true)|;
    if inGroup == 0 then Unchecked
    else if inGroup == |sel| then Checked
    else Indeterminate
  }

  /** Checked iff every selected email carries g (over a non-empty selection),
      Unchecked iff none does, Indeterminate iff some do and some do not. */
  lemma MembershipMeaning(sel: seq<ContactEmail>, g: GroupId)
    ensures Membership(sel, g) == Checked <==> |sel| > 0 && forall k :: 0 <= k < |sel| ==> HasLabel(sel[k], g)
    ensures Membership(sel, g) == Unchecked <==> forall k :: 0 <= k < |sel| ==> !HasLabel(sel[k], g)
    ensures Membership(sel, g) == Indeterminate <==>
      (exists k :: 0 <= k < |sel| && HasLabel(sel[k], g)) && (exists k :: 0 <= k < |sel| && !HasLabel(sel[k], g))
  {
    FilterExtremes(sel, g, true);
  }

  /** The reduce over the groups, starting from an empty object and assigning
      each group's ID its state in turn. */
  function Fill(groups: seq<Group>, sel: seq<ContactEmail>): (m: SelectionModel)
    ensures |m| <= |groups|
    decreases |groups|
  {
    if groups == [] then []
    else
      var id := groups[|groups| - 1].id;
      Assign(Fill(groups[..|groups| - 1], sel), id, Membership(sel, id))
  }

  /** The reduce yields one entry per group ID, each holding that group's state. */
  lemma {:induction false} FillMeaning(groups: seq<Group>, sel: seq<ContactEmail>)
    ensures DistinctKeys(Fill(groups, sel))
    ensures Keys(Fill(groups, sel)) == GroupIds(groups)
    ensures forall g :: g in Keys(Fill(groups, sel)) ==> Lookup(Fill(groups, sel), g) == Some(Membership(sel, g))
    decreases |groups|
  {
    if groups != [] {
      var init := groups[..|groups| - 1];
      var id := groups[|groups| - 1].id;
      FillMeaning(init, sel);
      AssignDistinct(Fill(init, sel), id, Membership(sel, id));
    }
  }

  /** getModel: the empty model when either list is empty, otherwise Fill. */
  function GetModel(groups: seq<Group>, sel: seq<ContactEmail>): (m: SelectionModel)
    ensures DistinctKeys(m)
    ensures |sel| == 0 || |groups| == 0 ==> m == []
    ensures |sel| > 0 && |groups| > 0 ==> Keys(m) == GroupIds(groups)
    ensures forall g :: g in Keys(m) ==> Lookup(m, g) == Some(Membership(sel, g))
  {
    if |sel| == 0 || |groups| == 0 then [] else FillMeaning(groups, sel); Fill(groups, sel)
  }

  /** Every entry of the model holds its group's membership state. */
  lemma EntriesHoldMembership(groups: seq<Group>, sel: seq<ContactEmail>)
    ensures forall i :: 0 <= i < |GetModel(groups, sel)| ==>
      GetModel(groups, sel)[i].state == Membership(sel, GetModel(groups, sel)[i].groupId)
  {
    var m := GetModel(groups, sel);
    forall i | 0 <= i < |m| ensures m[i].state == Membership(sel, m[i].groupId) {
      LookupAt(m, i);
      KeysAreEntryKeys(m, m[i].groupId);
    }
  }

  /** One entry per distinct group ID, so the entry count is the number of distinct groups. */
  lemma EntryCount(groups: seq<Group>, sel: seq<ContactEmail>)
    ensures |GetModel(groups, sel)| == if |sel| == 0 || |groups| == 0 then 0 else |GroupIds(groups)|
  {
    KeyCount(GetModel(groups, sel));
  }

  /** Adding a group whose ID is new appends its entry. */
  lemma FillAppend(init: seq<Group>, last: Group, sel: seq<ContactEmail>)
    requires last.id !in GroupIds(init)
    ensures Fill(init + [last], sel) == Fill(init, sel) + [Entry(last.id, Membership(sel, last.id))]
  {
    var groups := init + [last];
    assert groups[..|groups| - 1] == init;
    FillMeaning(init, sel);
    AssignNewKey(Fill(init, sel), last.id, Membership(sel, last.id));
  }

  predicate DistinctGroupIds(groups: seq<Group>) {
    forall i, j :: 0 <= i < j < |groups| ==> groups[i].id != groups[j].id
  }

  lemma DistinctPrefix(groups: seq<Group>)
    requires DistinctGroupIds(groups) && groups != []
    ensures DistinctGroupIds(groups[..|groups| - 1])
    ensures groups[|groups| - 1].id !in GroupIds(groups[..|groups| - 1])
  {
    var init := groups[..|groups| - 1];
    assert forall i :: 0 <= i < |init| ==> init[i] == groups[i];
    GroupIdsExactly(init, groups[|groups| - 1].id);
  }

  /** With distinct group IDs the entries follow the order of the group list. */
  lemma {:induction false} FillInGroupOrder(groups: seq<Group>, sel: seq<ContactEmail>)
    requires DistinctGroupIds(groups)
    ensures |Fill(groups, sel)| == |groups|
    ensures forall i :: 0 <= i < |groups| ==> Fill(groups, sel)[i] == Entry(groups[i].id, Membership(sel, groups[i].id))
    decreases |groups|
  {
    if groups != [] {
      var init := groups[..|groups| - 1];
      var last := groups[|groups| - 1];
      assert groups == init + [last];
      DistinctPrefix(groups);
      FillAppend(init, last, sel);
      FillInGroupOrder(init, sel);
      forall i | 0 <= i < |groups|
        ensures Fill(groups, sel)[i] == Entry(groups[i].id, Membership(sel, groups[i].id))
      {
        if i < |init| { assert groups[i] == init[i]; }
      }
    }
  }
}
