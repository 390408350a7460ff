# Contact-group membership reconciliation

A Dafny model of the reconciliation logic behind the contact-group dropdown
(`src/app/components/ContactGroupDropdown.js`). The user selects several
contact emails, and the dropdown shows one tri-state checkbox per contact
group. After the user edits the checkboxes and presses *Apply*, the component
works out which emails to label and which to unlabel. The model covers:

- **getModel** (`ModelBuilder`): builds the selection model, one entry per
  group, from the group list and the selected emails. An entry is Checked
  when every selected email carries the group, Unchecked when none does, and
  Indeterminate otherwise. Either list being empty gives the empty model.
- **handleCheck** (`SelectionEditor`): a checkbox change overwrites one entry
  with Checked or Unchecked.
- **collectContacts** (`Disambiguator`): a single pass with a counter per
  contact ID. It records a contact, looked up with `contacts.find`, the moment
  that contact's count reaches 2. It is a method with a loop, proved against
  the specification function `Flagged`.
- **the planner of handleApply** (`Planner`): for each entry it computes the
  labelling request (Add), the unlabelling request (Remove) or nothing.
- **handleApply** (`ApplyFlow`): resolves duplicates through the
  email-selection dialog, plans, issues the requests and reports the number
  of model entries.

The component keeps the selection model as a plain object. Object property
order is insertion order, so the model is an ordered list of
`(groupId, state)` entries with distinct keys. `Lookup` is property read.
`Assign` is property write (`acc[ID] = …` and `{...model, [id]: v}`): an
existing key keeps its position, and a new key goes at the end. The numeric
encoding 0/1/2 of the states becomes the datatype `State`. A missing
`LabelIDs` list is the empty sequence.

Collaborators that the code calls but this model cannot see become
parameters:
- The email-selection dialog is the `chosen` argument of `HandleApply`. It is
  `None` when the user dismisses the dialog.
- The labelling service is `accepts`, which says which requests succeed.
- The refresh and the notification are the `Applied` outcome, which carries
  the notified count.

## Model

| member | source | states |
|---|---|---|
| `ModelBuilder.GetModel` | src/app/components/ContactGroupDropdown.js:42-54 | If either list is empty the model is empty. Otherwise its keys are exactly the group IDs, with no key repeated, and each key holds its group's membership state. |
| `ModelBuilder.Membership` | src/app/components/ContactGroupDropdown.js:48-51 | The count ternary. An empty selection gives Unchecked, and Checked leaves no email lacking the group. Its full meaning, in both directions, is `MembershipMeaning`. |
| `ModelBuilder.Fill` | src/app/components/ContactGroupDropdown.js:47-53 | The reduce that writes `acc[ID]` group by group. It never has more entries than there are groups. Its keys and states are stated by `FillMeaning` and `FillInGroupOrder`. |
| `ModelBuilder.MembershipMeaning` | src/app/components/ContactGroupDropdown.js:48-51 | Checked iff the selection is non-empty and every email carries the group. Unchecked iff no email does. Indeterminate iff some do and some do not. |
| `ModelBuilder.FillMeaning` | src/app/components/ContactGroupDropdown.js:47-53 | The reduce over the groups gives distinct keys, key set = set of group IDs, and each key maps to its group's membership state. |
| `ModelBuilder.FillAppend` | src/app/components/ContactGroupDropdown.js:47-53 | A group with a new ID appends its entry at the end of the model. |
| `ModelBuilder.FillInGroupOrder` | src/app/components/ContactGroupDropdown.js:47-53 | When group IDs are distinct, entry i is group i's ID and state: one entry per group, in list order. |
| `ModelBuilder.EntriesHoldMembership` | src/app/components/ContactGroupDropdown.js:47-53 | Every entry of the built model holds its group's membership state. |
| `ModelBuilder.EntryCount` | src/app/components/ContactGroupDropdown.js:42-53 | The model has one entry per distinct group ID, or none when either list is empty. |
| `Domain.Filter` | src/app/components/ContactGroupDropdown.js:48-50 | `.filter` on whether `LabelIDs` includes the group. It is never longer than the selection. `FilterExtremes`, `FilterAppend` and `FilteredIdsExactly` state what it keeps and in which order. |
| `Domain.EmailIds` | src/app/components/ContactGroupDropdown.js:119 | `.map(({ ID }) => ID)`: same length as its input, and position i holds the ID of email i. |
| `Domain.Lookup` | src/app/components/ContactGroupDropdown.js:207-208 | Reading `model[g]`: nothing exactly when g is not a key, and otherwise a state that an entry (g, state) holds. `LookupAt` shows that every entry is what Lookup finds for its key. |
| `Domain.FilterExtremes` | src/app/components/ContactGroupDropdown.js:48-51 | The label filter keeps nothing iff no email passes it, and keeps everything iff every email passes. |
| `Domain.FilterAppend` | src/app/components/ContactGroupDropdown.js:117-119 | Filtering distributes over concatenation, so it keeps selection order. |
| `Domain.FilteredIdsExactly` | src/app/components/ContactGroupDropdown.js:126-128 | An ID appears in a filtered ID list iff some selected email with that ID passes the filter. |
| `Domain.Assign` | src/app/components/ContactGroupDropdown.js:98 | After a property write, k holds v, every other key reads as before, the key set gains k, and the length grows only when k is new. |
| `Domain.AssignInPlace` | src/app/components/ContactGroupDropdown.js:98 | A property write leaves every entry for another key at its index. |
| `Domain.AssignNewKey` | src/app/components/ContactGroupDropdown.js:51 | Writing a key that is not yet present appends one entry at the end. |
| `Domain.AssignDistinct` | src/app/components/ContactGroupDropdown.js:51 | A property write never creates a repeated key. |
| `Domain.KeyCount` | src/app/components/ContactGroupDropdown.js:109 | A model without repeated keys has as many entries as keys. |
| `SelectionEditor.FromChecked` | src/app/components/ContactGroupDropdown.js:98 | `+target.checked` is never Indeterminate. It is Checked iff the box is checked. |
| `SelectionEditor.Toggle` | src/app/components/ContactGroupDropdown.js:98 | After a toggle, g reads Checked or Unchecked as the flag says, whatever g held before. Every other key is unchanged, and distinct keys stay distinct. |
| `SelectionEditor.ToggleNeverIndeterminate` | src/app/components/ContactGroupDropdown.js:98 | After a toggle, no entry for the toggled group is Indeterminate. |
| `Disambiguator.ContactIds` | src/app/components/ContactGroupDropdown.js:64 | The `ContactID` that each step of the reduce reads: one per email, in selection order. |
| `Disambiguator.Flagged` | src/app/components/ContactGroupDropdown.js:63-70 | The sequence of IDs whose count reaches exactly 2, in scan order. Its meaning is stated by `FlaggedOnce`, `SecondOccurrence`, `FlaggedInOrder` and `NothingFlaggedIffDistinct`. |
| `Disambiguator.Find` | src/app/components/ContactGroupDropdown.js:68 | `contacts.find` by ID, with undefined as None. `FindFirst` states its result. |
| `Disambiguator.FindAll` | src/app/components/ContactGroupDropdown.js:64-69 | The contacts pushed during the scan: one lookup per flagged ID, in flagging order. |
| `Disambiguator.CollectContacts` | src/app/components/ContactGroupDropdown.js:62-79 | The recorded lookups are `Find` applied to the flagged IDs, in order. The counter map has exactly the occurring contact IDs as keys, and each counter is that ID's number of occurrences. |
| `Disambiguator.FlaggedOnce` | src/app/components/ContactGroupDropdown.js:63-71 | An ID occurring k >= 2 times is flagged exactly once, whatever k is. An ID occurring once or never is not flagged. |
| `Disambiguator.SecondOccurrence` | src/app/components/ContactGroupDropdown.js:65-67 | The flagging point is a position holding the ID with exactly one earlier occurrence, which is where its count becomes 2. |
| `Disambiguator.FlaggedInOrder` | src/app/components/ContactGroupDropdown.js:63-70 | Flagged IDs appear in the order in which their second occurrences are reached. |
| `Disambiguator.NothingFlaggedIffDistinct` | src/app/components/ContactGroupDropdown.js:101-104 | Nothing is flagged iff no two selected emails share a contact ID. |
| `Disambiguator.FindFirst` | src/app/components/ContactGroupDropdown.js:68 | The lookup fails iff no contact has the ID. Otherwise it returns the first contact that has it. |
| `Planner.EntryOperation` | src/app/components/ContactGroupDropdown.js:111-133 | Indeterminate gives nothing. Checked gives an Add of the emails lacking the group, or nothing iff all carry it. Unchecked gives a Remove of the emails carrying it, or nothing iff none does. No request is empty. |
| `Planner.Plan` | src/app/components/ContactGroupDropdown.js:109-135 | No planned request has an empty ID list. Each targets a group of the model. There are at most as many requests as entries. |
| `Planner.PlanPerGroup` | src/app/components/ContactGroupDropdown.js:111-133 | The requests for group g are exactly those its own entry asks for, and there are none when g has no entry. |
| `Planner.PlannedOperation` | src/app/components/ContactGroupDropdown.js:112-133 | Every planned request comes from a Checked entry, as an Add of the emails lacking the group, or from an Unchecked entry, as a Remove of the emails carrying it. None comes from an Indeterminate entry. |
| `Planner.ToLabel` | src/app/components/ContactGroupDropdown.js:117-119 | The IDs to label. The list is never longer than the selection, and it is empty iff every selected email already carries the group. |
| `Planner.ToUnlabel` | src/app/components/ContactGroupDropdown.js:126-128 | The IDs to unlabel. The list is never longer than the selection, and it is empty iff no selected email carries the group. |
| `Planner.ToLabelExactly` | src/app/components/ContactGroupDropdown.js:117-128 | The Add list holds exactly the IDs of the selected emails lacking the group. The Remove list holds exactly those of the emails carrying it. |
| `Planner.SettledEntry` | src/app/components/ContactGroupDropdown.js:116-132 | An entry whose state is the selection's membership state asks for no request. |
| `Planner.PlanSettled` | src/app/components/ContactGroupDropdown.js:110-135 | A model whose entries all ask for nothing plans nothing. |
| `Planner.PlanAfterAssign` | src/app/components/ContactGroupDropdown.js:98 | On such a model, after one property write the plan is at most the written entry's request. |
| `Planner.BuildThenPlanIsNoop` | src/app/components/ContactGroupDropdown.js:109-135 | Planning an unedited freshly built model on the same selection issues no request. |
| `Planner.ToggleThenPlan` | src/app/components/ContactGroupDropdown.js:98-135 | Toggling one group of a freshly built model plans only that group's Add or Remove, and nothing if it is already settled. |
| `ApplyFlow.Execute` | src/app/components/ContactGroupDropdown.js:110-139 | Every planned request is issued. The apply succeeds iff the service accepts all of them, and only then is the entry count reported. |
| `ApplyFlow.HandleApply` | src/app/components/ContactGroupDropdown.js:100-141 | With no flagged contact, the plan uses the original selection. Otherwise a dismissed dialog cancels before any request, and a resolved dialog's list is used. The report counts all model entries. |
| `ApplyFlow.ApplyUntouchedModel` | src/app/components/ContactGroupDropdown.js:138 | Applying an untouched model issues no request but reports the number of distinct groups (0 for an empty model). The count is of entries, not of requests. |
| `Scenarios.MixedGroupIsIndeterminate` | src/app/components/ContactGroupDropdown.js:42-71 | One group and two emails of one contact, only one carrying the group: the entry is Indeterminate and the contact is flagged. |
| `Scenarios.CheckAddsMissingEmail` | src/app/components/ContactGroupDropdown.js:98-123 | Checking that group with both emails kept plans a single Add of the email lacking it. |
| `Scenarios.EmptySelectionReportsZero` | src/app/components/ContactGroupDropdown.js:42-45 | With groups listed but no email selected, the model is empty. Applying it issues nothing and reports 0. |

## Left out

- Rendering is not modelled: the dropdown and its anchor, the checkboxes and labels, the group-creation button and `generateUID` are presentation only.
- The Apply button is disabled when no group is listed (an empty group list, or a keyword that matches no group; ContactGroupDropdown.js:237), so `handleApply` cannot start then. `HandleApply` does not model this gate and accepts any model.
- The keyword filter over group names is not modelled. It depends on a string normaliser from another package and affects only what is displayed.
- The `useEffect` that rebuilds the model while the dropdown is open is not modelled. It is framework state wiring, so `GetModel` is simply the value that effect stores.
- The in-flight flag `loading` (from `useLoading`, set by `withLoading` around `handleApply`) and the Apply button gate it drives against a second apply are not modelled.
- What the dialog returns is the caller's input `chosen`. Its relation to the flagged contacts is not modelled, and neither is the dialog's own behaviour.
- The request payload builders and the HTTP calls are not modelled. Each request is an `Operation`.
- The timing of `Promise.all` is not modelled. `Execute` issues every request and fails if any one fails. It does not model in which order requests complete, that the failure surfaces at the first rejection, or that succeeded requests are not rolled back.
- The refresh (`call()`) and the notification text (`ngettext`) are not modelled. A successful `Applied` outcome stands for both and carries the count.
- `close()` after apply is not modelled, because it is UI.
- Object key order is not modelled exactly. JavaScript lists integer-like keys first, in numeric order. The model assumes plain insertion order, that is, the model assumes non-numeric group IDs. The order affects only the order of the planned requests, not which requests are planned.
- `src/app/components/settings/ExportSection.tsx` is not modelled. It is a button that opens a dialog and holds no reconciliation logic.
- Label IDs are an array tested with `includes` (lines 48-49, 118, 127), so the model keeps a sequence and tests membership.
- Two exceptions are not modelled. `contacts` comes from `useContacts()` with no default, unlike `contactGroups` (lines 89-90), so while it is undefined `contacts.find` (line 68) throws once a contact reaches a second email. `[...contactEmails]` (line 101) throws when the optional prop is absent. The `seq<Contact>` and `seq<ContactEmail>` parameters of `CollectContacts` and `HandleApply` are always present, so neither throw arises in the model.
