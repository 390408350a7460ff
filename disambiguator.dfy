/**
 * Detecting contacts that contribute more than one selected email
 * (collectContacts). Such contacts are handed to the email-selection dialog.
 */
module Disambiguator {
  import opened Wrappers
  import opened Domain

  /** The contact ID of every selected email, in selection order. */
  function ContactIds(emails: seq<ContactEmail>): (ids: seq<ContactId>)
    ensures |ids| == |emails|
    ensures forall i :: 0 <= i < |emails| ==> ids[i] == emails[i].contactId
  {
    seq(|emails|, i requires 0 <= i < |emails| => emails[i].contactId)
  }

  /**
   * The contact IDs flagged by the one-pass scan: an ID is flagged at the
   * position where its running count becomes exactly 2.
   */
  function Flagged(ids: seq<ContactId>): seq<ContactId>
    decreases |ids|
  {
    if ids == [] then []
    else
      var init := ids[..|ids| - 1];
      var last := ids[|ids| - 1];
      Flagged(init) + (if multiset(init)[last] == 1 then [last] else [])
  }

  /** An ID occurring k >= 2 times is flagged exactly once, whatever k; one
      occurring once or never is not flagged. */
  lemma {:induction false} FlaggedOnce(ids: seq<ContactId>, c: ContactId)
    ensures multiset(Flagged(ids))[c] == if multiset(ids)[c] >= 2 then 1 else 0
    decreases |ids|
  {
    if ids != [] {
      var init := ids[..|ids| - 1];
      var last := ids[|ids| - 1];
      assert ids == init + [last];
      FlaggedOnce(init, c);
    }
  }

  /** The position of the second occurrence of c: the index where it occurs
      with exactly one occurrence before it. */
  function SecondOccurrence(ids: seq<ContactId>, c: ContactId): (r: nat)
    requires multiset(ids)[c] >= 2
    ensures r < |ids| && ids[r] == c && multiset(ids[..r])[c] == 1
    decreases |ids|
  {
    var init := ids[..|ids| - 1];
    assert ids == init + [ids[|ids| - 1]];
    if multiset(init)[c] >= 2 then
      var r := SecondOccurrence(init, c);
      assert init[..r] == ids[..r];
      r
    else
      |ids| - 1
  }

  /** The flagged IDs come in the order in which their second occurrences are reached. */
  lemma {:induction false} FlaggedInOrder(ids: seq<ContactId>, i: nat, j: nat)
    requires i < j < |Flagged(ids)|
    ensures multiset(ids)[Flagged(ids)[i]] >= 2 && multiset(ids)[Flagged(ids)[j]] >= 2
    ensures SecondOccurrence(ids, Flagged(ids)[i]) < SecondOccurrence(ids, Flagged(ids)[j])
    decreases |ids|
  {
    var init := ids[..|ids| - 1];
    var last := ids[|ids| - 1];
    var f := Flagged(ids);
    assert ids == init + [last];
    FlaggedOnce(ids, f[i]);
    FlaggedOnce(ids, f[j]);
    assert f[i] in multiset(f) && f[j] in multiset(f);
    FlaggedOnce(init, f[i]);
    assert f[i] == Flagged(init)[i];
    assert f[i] in multiset(Flagged(init));
    if j < |Flagged(init)| {
      assert f[j] == Flagged(init)[j];
      FlaggedOnce(init, f[j]);
      assert f[j] in multiset(Flagged(init));
      FlaggedInOrder(init, i, j);
      assert init[..SecondOccurrence(init, f[i])] == ids[..SecondOccurrence(init, f[i])];
      assert init[..SecondOccurrence(init, f[j])] == ids[..SecondOccurrence(init, f[j])];
    } else {
      assert f[j] == last && multiset(init)[last] == 1;
      assert init[..SecondOccurrence(init, f[i])] == ids[..SecondOccurrence(init, f[i])];
    }
  }

  /** Two equal IDs at different positions make a count of at least 2. */
  lemma RepeatCounts(ids: seq<ContactId>, p: nat, q: nat)
    requires p < q < |ids|
    ensures ids[p] == ids[q] ==> multiset(ids)[ids[q]] >= 2
  {
    var c := ids[q];
    assert ids == ids[..q] + [c] + ids[q + 1..];
    assert ids[..q][p] == ids[p];
    assert ids[p] == c ==> multiset(ids[..q])[c] >= 1;
  }

  /** Nothing is flagged exactly when no two selected emails share a contact. */
  lemma NothingFlaggedIffDistinct(ids: seq<ContactId>)
    ensures Flagged(ids) == [] <==> forall p, q :: 0 <= p < q < |ids| ==> ids[p] != ids[q]
  {
    if Flagged(ids) == [] {
      forall p, q | 0 <= p < q < |ids| ensures ids[p] != ids[q] {
        FlaggedOnce(ids, ids[q]);
        RepeatCounts(ids, p, q);
      }
    } else {
      var c := Flagged(ids)[0];
      assert c in multiset(Flagged(ids));
      FlaggedOnce(ids, c);
      var r := SecondOccurrence(ids, c);
      assert c in ids[..r];
      var p :| 0 <= p < r && ids[..r][p] == c;
      assert ids[p] == ids[r];
    }
  }

  /** contacts.find: the first contact with the given ID, if any. */
  function Find(contacts: seq<Contact>, id: ContactId): Option<Contact> {
    if contacts == [] then None
    else if contacts[0].id == id then Some(contacts[0])
    else Find(contacts[1..], id)
  }

  /** Find fails exactly when no contact has the ID, and otherwise yields the
      first contact that has it. */
  lemma {:induction false} FindFirst(contacts: seq<Contact>, id: ContactId)
    ensures Find(contacts, id).None? <==> forall k :: 0 <= k < |contacts| ==> contacts[k].id != id
    ensures Find(contacts, id).Some? ==>
      exists k :: 0 <= k < |contacts| && contacts[k] == Find(contacts, id).value && contacts[k].id == id
                  && forall j :: 0 <= j < k ==> contacts[j].id != id
  {
    if contacts != [] && contacts[0].id != id {
      var rest := contacts[1..];
      FindFirst(rest, id);
      assert forall k :: 0 < k < |contacts| ==> rest[k - 1] == contacts[k];
      if Find(rest, id).Some? {
        var k :| 0 <= k < |rest| && rest[k] == Find(rest, id).value && rest[k].id == id
                 && forall j :: 0 <= j < k ==> rest[j].id != id;
        assert contacts[k + 1] == rest[k];
      }
    }
  }

  function FindAll(contacts: seq<Contact>, ids: seq<ContactId>): (r: seq<Option<Contact>>)
    ensures |r| == |ids|
    ensures forall i :: 0 <= i < |ids| ==> r[i] == Find(contacts, ids[i])
  {
    seq(|ids|, i requires 0 <= i < |ids| => Find(contacts, ids[i]))
  }

  /** One more email extends the scan by at most the one ID it completes. */
  lemma ScanStep(ids: seq<ContactId>, contacts: seq<Contact>, i: nat)
    requires i < |ids|
    ensures multiset(ids[..i + 1]) == multiset(ids[..i]) + multiset{ids[i]}
    ensures FindAll(contacts, Flagged(ids[..i + 1]))
         == FindAll(contacts, Flagged(ids[..i])) + (if multiset(ids[..i])[ids[i]] == 1 then [Find(contacts, ids[i])] else [])
  {
    var pre := ids[..i + 1];
    assert pre == ids[..i] + [ids[i]];
    assert pre[..|pre| - 1] == ids[..i];
    var f := Flagged(ids[..i]);
    assert Flagged(pre) == f + (if multiset(ids[..i])[ids[i]] == 1 then [ids[i]] else []);
  }

  /**
   * collectContacts: one pass over the selected emails with a counter per
   * contact ID; a contact is looked up and recorded the moment its count
   * reaches 2. Returns the recorded lookups (including failed ones) and the
   * final counters.
   */
  method CollectContacts(emails: seq<ContactEmail>, contacts: seq<Contact>)
    returns (found: seq<Option<Contact>>, duplicate: map<ContactId, nat>)
    ensures found == FindAll(contacts, Flagged(ContactIds(emails)))
    ensures forall c :: c in duplicate <==> c in ContactIds(emails)
    ensures forall c :: c in duplicate ==> duplicate[c] == multiset(ContactIds(emails))[c]
  {
    ghost var ids := ContactIds(emails);
    found, duplicate := [], map[];
    var i := 0;
    while i < |emails|
      invariant 0 <= i <= |emails|
      invariant forall c :: c in duplicate <==> c in ids[..i]
      invariant forall c :: c in duplicate ==> duplicate[c] == multiset(ids[..i])[c]
      invariant found == FindAll(contacts, Flagged(ids[..i]))
    {
      var id := emails[i].contactId;
      var count := (if id in duplicate then duplicate[id] else 0) + 1;
      ScanStep(ids, contacts, i);
      assert ids[..i + 1] == ids[..i] + [id];
      assert count == multiset(ids[..i])[id] + 1;
      duplicate := duplicate[id := count];
      if count == 2 {
        found := found + [Find(contacts, id)];
      }
      i := i + 1;
    }
    assert ids[..|emails|] == ids;
  }
}
