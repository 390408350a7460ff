/**
 * The entities the contact-group dropdown works on, and the selection model:
 * an insertion-ordered dictionary from group ID to a tri-state membership,
 * which the component keeps as a plain object.
 */
module Domain {
  import opened Wrappers

  type GroupId = string
  type EmailId = string
  type ContactId = string

  /** A contact group; only its ID takes part in reconciliation. */
  datatype Group = Group(id: GroupId, name: string)

  /** A contact's email address and the groups it currently belongs to
      (a missing LabelIDs list is the empty sequence). */
  datatype ContactEmail = ContactEmail(id: EmailId, contactId: ContactId, labelIds: seq<GroupId>)

  /** A contact record, looked up by ID when one contact has several selected addresses. */
  datatype Contact = Contact(id: ContactId, name: string)

  /** The three checkbox states, encoded 0, 1 and 2 by the component. */
  datatype State = Unchecked | Checked | Indeterminate

  datatype Entry = Entry(groupId: GroupId, state: State)

  /** The entries of the model, in the order the object enumerates them. */
  type SelectionModel = seq<Entry>

  predicate HasLabel(e: ContactEmail, g: GroupId) {
    g in e.labelIds
  }

  function GroupIds(groups: seq<Group>): set<GroupId>
    decreases |groups|
  {
    if groups == [] then {} else GroupIds(groups[..|groups| - 1]) + {groups[|groups| - 1].id}
  }

  lemma {:induction false} GroupIdsExactly(groups: seq<Group>, g: GroupId)
    ensures g in GroupIds(groups) <==> exists i :: 0 <= i < |groups| && groups[i].id == g
    decreases |groups|
  {
    if groups != [] {
      var init := groups[..|groups| - 1];
      GroupIdsExactly(init, g);
      if exists i :: 0 <= i < |init| && init[i].id == g {
        var i :| 0 <= i < |init| && init[i].id == g;
        assert groups[i] == init[i];
      }
      if exists i :: 0 <= i < |groups| - 1 && groups[i].id == g {
        var i :| 0 <= i < |groups| - 1 && groups[i].id == g;
        assert init[i] == groups[i];
      }
    }
  }

  /** The selected emails that do (labelled) or do not (!labelled) carry group g, in selection order. */
  function Filter(sel: seq<ContactEmail>, g: GroupId, labelled: bool): (r: seq<ContactEmail>)
    ensures |r| <= |sel|
    decreases |sel|
  {
    if sel == [] then []
    else (if HasLabel(sel[0], g) == labelled then [sel[0]] else []) + Filter(sel[1..], g, labelled)
  }

  /** The filter drops nothing exactly when every email passes, and keeps
      nothing exactly when none does. */
  lemma {:induction false} FilterExtremes(sel: seq<ContactEmail>, g: GroupId, labelled: bool)
    ensures |Filter(sel, g, labelled)| == 0 <==> forall k :: 0 <= k < |sel| ==> HasLabel(sel[k], g) != labelled
    ensures |Filter(sel, g, labelled)| == |sel| <==> forall k :: 0 <= k < |sel| ==> HasLabel(sel[k], g) == labelled
    decreases |sel|
  {
    if sel != [] {
      FilterExtremes(sel[1..], g, labelled);
      assert forall k :: 0 < k < |sel| ==> sel[1..][k - 1] == sel[k];
    }
  }

  /** Filtering keeps selection order: it distributes over concatenation. */
  lemma {:induction false} FilterAppend(a: seq<ContactEmail>, b: seq<ContactEmail>, g: GroupId, labelled: bool)
    ensures Filter(a + b, g, labelled) == Filter(a, g, labelled) + Filter(b, g, labelled)
    decreases |a|
  {
    if a == [] {
      assert a + b == b;
    } else {
      var head := if HasLabel(a[0], g) == labelled then [a[0]] else [];
      assert (a + b)[0] == a[0];
      assert (a + b)[1..] == a[1..] + b;
      assert Filter(a + b, g, labelled) == head + Filter(a[1..] + b, g, labelled);
      FilterAppend(a[1..], b, g, labelled);
      assert Filter(a, g, labelled) == head + Filter(a[1..], g, labelled);
    }
  }

  function EmailIds(s: seq<ContactEmail>): (r: seq<EmailId>)
    ensures |r| == |s|
    ensures forall i :: 0 <= i < |s| ==> r[i] == s[i].id
  {
    if s == [] then [] else [s[0].id] + EmailIds(s[1..])
  }

  /** The filter keeps exactly the selected emails that pass it. */
  lemma {:induction false} FilterMembers(sel: seq<ContactEmail>, g: GroupId, labelled: bool, e: ContactEmail)
    ensures e in Filter(sel, g, labelled) <==> e in sel && HasLabel(e, g) == labelled
    decreases |sel|
  {
    if sel != [] {
      FilterMembers(sel[1..], g, labelled, e);
      assert sel == [sel[0]] + sel[1..];
    }
  }

  lemma {:induction false} EmailIdsMembers(s: seq<ContactEmail>, x: EmailId)
    ensures x in EmailIds(s) <==> exists e :: e in s && e.id == x
  {
    if exists e :: e in s && e.id == x {
      var e :| e in s && e.id == x;
      var k :| 0 <= k < |s| && s[k] == e;
      assert EmailIds(s)[k] == x;
    }
  }

  /** An ID is in the filtered ID list exactly when some selected email with
      that ID passes the filter. */
  lemma FilteredIdsExactly(sel: seq<ContactEmail>, g: GroupId, labelled: bool, x: EmailId)
    ensures x in EmailIds(Filter(sel, g, labelled))
        <==> exists k :: 0 <= k < |sel| && sel[k].id == x && HasLabel(sel[k], g) == labelled
  {
    var f := Filter(sel, g, labelled);
    EmailIdsMembers(f, x);
    forall e ensures e in f <==> e in sel && HasLabel(e, g) == labelled {
      FilterMembers(sel, g, labelled, e);
    }
  }

  // ---------------------------------------------------------------------
  // The selection model as an ordered dictionary

  function Keys(m: SelectionModel): set<GroupId> {
    if m == [] then {} else {m[0].groupId} + Keys(m[1..])
  }

  predicate DistinctKeys(m: SelectionModel) {
    forall i, j :: 0 <= i < j < |m| ==> m[i].groupId != m[j].groupId
  }

  /** Property access `model[g]`: the state stored under g, if any. */
  function Lookup(m: SelectionModel, g: GroupId): (r: Option<State>)
    ensures r.None? <==> g !in Keys(m)
    ensures r.Some? ==> Entry(g, r.value) in m
  {
    if m == [] then None
    else if m[0].groupId == g then Some(m[0].state)
    else Lookup(m[1..], g)
  }

  lemma {:induction false} KeysAreEntryKeys(m: SelectionModel, g: GroupId)
    ensures g in Keys(m) <==> exists i :: 0 <= i < |m| && m[i].groupId == g
  {
    if m != [] {
      KeysAreEntryKeys(m[1..], g);
      if exists i :: 0 <= i < |m[1..]| && m[1..][i].groupId == g {
        var i :| 0 <= i < |m[1..]| && m[1..][i].groupId == g;
        assert m[i + 1] == m[1..][i];
      }
      if exists i :: 0 < i < |m| && m[i].groupId == g {
        var i :| 0 < i < |m| && m[i].groupId == g;
        assert m[1..][i - 1] == m[i];
      }
    }
  }

  /** In a model without repeated keys, every entry is what Lookup finds for its key. */
  lemma {:induction false} LookupAt(m: SelectionModel, i: nat)
    requires DistinctKeys(m)
    requires i < |m|
    ensures Lookup(m, m[i].groupId) == Some(m[i].state)
  {
    if i > 0 {
      assert m[1..][i - 1] == m[i];
      LookupAt(m[1..], i - 1);
    }
  }

  /** The number of entries of a model without repeated keys is its number of keys. */
  lemma {:induction false} KeyCount(m: SelectionModel)
    requires DistinctKeys(m)
    ensures |Keys(m)| == |m|
  {
    if m != [] {
      assert m[0].groupId !in Keys(m[1..]) by {
        forall j | 0 <= j < |m[1..]| ensures m[1..][j].groupId != m[0].groupId {
          assert m[1..][j] == m[j + 1];
        }
        KeysAreEntryKeys(m[1..], m[0].groupId);
      }
      KeyCount(m[1..]);
    }
  }

  /**
   * Property assignment `model[k] = v` (also what `{...model, [k]: v}` yields):
   * an existing key keeps its place and takes the new value, a new key is appended.
   */
  function Assign(m: SelectionModel, k: GroupId, v: State): (r: SelectionModel)
    ensures Lookup(r, k) == Some(v)
    ensures forall g :: g != k ==> Lookup(r, g) == Lookup(m, g)
    ensures Keys(r) == Keys(m) + {k}
    ensures |r| == if k in Keys(m) then |m| else |m| + 1
  {
    if m == [] then [Entry(k, v)]
    else if m[0].groupId == k then [Entry(k, v)] + m[1..]
    else
      var rest := Assign(m[1..], k, v);
      assert forall i :: 0 < i < |m| && m[i].groupId != k ==> m[1..][i - 1] == m[i];
      [m[0]] + rest
  }

  /** Assignment keeps every other entry in its place. */
  lemma {:induction false} AssignInPlace(m: SelectionModel, k: GroupId, v: State, i: nat)
    requires i < |m| && m[i].groupId != k
    ensures Assign(m, k, v)[i] == m[i]
  {
    if i > 0 && m[0].groupId != k {
      assert m[1..][i - 1] == m[i];
      AssignInPlace(m[1..], k, v, i - 1);
    }
  }

  /** A key not yet present is appended at the end. */
  lemma {:induction false} AssignNewKey(m: SelectionModel, k: GroupId, v: State)
    requires k !in Keys(m)
    ensures Assign(m, k, v) == m + [Entry(k, v)]
  {
    if m != [] {
      AssignNewKey(m[1..], k, v);
      assert m == [m[0]] + m[1..];
    }
  }

  lemma HeadKeyNotInTail(m: SelectionModel)
    requires DistinctKeys(m) && m != []
    ensures m[0].groupId !in Keys(m[1..])
    ensures DistinctKeys(m[1..])
  {
    forall j | 0 <= j < |m[1..]| ensures m[1..][j].groupId != m[0].groupId {
      assert m[1..][j] == m[j + 1];
    }
    KeysAreEntryKeys(m[1..], m[0].groupId);
    forall i, j | 0 <= i < j < |m[1..]| ensures m[1..][i].groupId != m[1..][j].groupId {
      assert m[1..][i] == m[i + 1] && m[1..][j] == m[j + 1];
    }
  }

  /** Assignment never introduces a repeated key. */
  lemma {:induction false} AssignDistinct(m: SelectionModel, k: GroupId, v: State)
    ensures DistinctKeys(m) ==> DistinctKeys(Assign(m, k, v))
  {
    var r := Assign(m, k, v);
    if !DistinctKeys(m) {
    } else if m != [] && m[0].groupId != k {
      var rest := Assign(m[1..], k, v);
      HeadKeyNotInTail(m);
      AssignDistinct(m[1..], k, v);
      forall j | 0 <= j < |rest| ensures rest[j].groupId != m[0].groupId {
        KeysAreEntryKeys(rest, rest[j].groupId);
      }
      assert r == [m[0]] + rest;
    } else if m != [] {
      forall i, j | 0 <= i < j < |r| ensures r[i].groupId != r[j].groupId {
        assert r[j] == m[j];
        if i > 0 { assert r[i] == m[i]; }
      }
    }
  }
}
