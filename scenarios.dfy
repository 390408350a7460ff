/** Worked examples of the reconciliation flow on small inputs. */
module Scenarios {
  import opened Wrappers
  import opened Domain
  import opened ModelBuilder
  import opened SelectionEditor
  import opened Disambiguator
  import opened Planner
  import opened ApplyFlow

  /** One group "g1"; contact "100" has two selected emails, only "10" in the group. */
  function Groups(): seq<Group> { [Group("g1", "Friends")] }

  function Selection(): seq<ContactEmail> {
    [ContactEmail("10", "100", ["g1"]), ContactEmail("11", "100", [])]
  }

  /** The mixed group is Indeterminate and the contact is flagged for the dialog. */
  lemma MixedGroupIsIndeterminate()
    ensures GetModel(Groups(), Selection()) == [Entry("g1", Indeterminate)]
    ensures Flagged(ContactIds(Selection())) == ["100"]
  {
    var sel := Selection();
    assert Filter(sel, "g1", true) == [sel[0]] by {
      assert Filter(sel[1..], "g1", true) == [];
    }
    assert Groups()[..0] == [];
    var ids := ContactIds(sel);
    assert ids == ["100", "100"];
    assert ids[..1] == ["100"] && ids[..1][..0] == [];
  }

  /** Checking the group and keeping both emails labels only the one lacking it. */
  lemma CheckAddsMissingEmail()
    ensures Plan(Toggle(GetModel(Groups(), Selection()), "g1", true), Selection())
         == [Operation("g1", Add, ["11"])]
  {
    var sel := Selection();
    MixedGroupIsIndeterminate();
    var toggled := Toggle([Entry("g1", Indeterminate)], "g1", true);
    assert toggled == [Entry("g1", Checked)];
    assert Filter(sel, "g1", false) == [sel[1]] by {
      assert Filter(sel[1..], "g1", false) == [sel[1]] by {
        assert sel[1..][1..] == [];
      }
    }
    assert ToLabel(sel, "g1") == ["11"] by {
      assert EmailIds([sel[1]]) == [sel[1].id] + EmailIds([]);
    }
    assert EntryOperation(Entry("g1", Checked), sel) == Some(Operation("g1", Add, ["11"]));
    assert Plan(toggled, sel) == AsSeq(EntryOperation(toggled[0], sel)) + Plan(toggled[1..], sel);
  }

  /** Groups listed but no email selected: the model is empty, Apply can be
      pressed, nothing is requested and 0 is reported. */
  lemma EmptySelectionReportsZero(accepts: Operation -> bool)
    ensures GetModel(Groups(), []) == []
    ensures Execute(Plan(GetModel(Groups(), []), []), |GetModel(Groups(), [])|, accepts) == Applied([], 0)
  {
  }
}
