/** The checkbox handler (handleCheck): a toggle replaces one group's entry. */
module SelectionEditor {
  import opened Wrappers
  import opened Domain

  /** The state a checkbox's checked flag stands for (`+target.checked`). */
  function FromChecked(checked: bool): (s: State)
    ensures s != Indeterminate
    ensures s == Checked <==> checked
  {
    if checked then Checked else Unchecked
  }

  /** `{...model, [g]: +checked}`: g is set to Checked or Unchecked whatever it
      held before; every other entry is unchanged. */
  function Toggle(m: SelectionModel, g: GroupId, checked: bool): (r: SelectionModel)
    ensures Lookup(r, g) == Some(if checked then Checked else Unchecked)
    ensures forall h :: h != g ==> Lookup(r, h) == Lookup(m, h)
    ensures Keys(r) == Keys(m) + {g}
    ensures |r| == if g in Keys(m) then |m| else |m| + 1
    ensures DistinctKeys(m) ==> DistinctKeys(r)
  {
    AssignDistinct(m, g, FromChecked(checked));
    Assign(m, g, FromChecked(checked))
  }

  /** In a model without repeated keys, no entry for g is Indeterminate after a toggle of g. */
  lemma ToggleNeverIndeterminate(m: SelectionModel, g: GroupId, checked: bool, i: nat)
    requires DistinctKeys(m)
    requires i < |Toggle(m, g, checked)| && Toggle(m, g, checked)[i].groupId == g
    ensures Toggle(m, g, checked)[i].state != Indeterminate
  {
    LookupAt(Toggle(m, g, checked), i);
  }
}
