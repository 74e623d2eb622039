# Editing dispatch and reversible operations for NDEF record trees

This project models, in Dafny, the core of the NFC Eclipse Plugin's record
editor. The editor shows an NDEF record as a tree of nodes. A *dispatcher*
(an "editing support") decides three things for each node: the value to show,
the cell editor to offer, and the operation to produce when the user commits a
new value. An *operation* captures a previous and a next value. `execute`
writes the next value into the record and `revoke` writes the previous one
back. The undo/redo history calls them.

Two dispatchers are modelled:

- `DefaultRecordEditing` (`DefaultRecordEditingSupport`) is the fallback. It
  edits the key of a record node and rejects every other node kind. It also
  builds the labels of choice editors and looks up a value's index.
- `AlternativeCarrierEditing` (`AlternativeCarrierRecordSelectEditingSupport`)
  handles the Alternative Carrier record. Property slot 0 is the carrier power
  state, a choice where -1 means unset. Slot 1 is the carrier data reference,
  as text. List items are the auxiliary data references. Everything else goes
  to the fallback.

Structure:

- `ndef_model.dfy` (module `NdefModel`) holds the shared vocabulary: values at
  the editor boundary (null, Integer, String), the faults that stand for the
  Java exceptions, the power-state enumeration, and the snapshot `RecordState`.
  It also holds the two classes. `Record` has fields that operations update in
  place. `Node` has a mutable `parentIndex`, because inserting or removing
  sibling list entries renumbers a node.
- `operations.dfy` (module `Operations`) holds one `Change` variant per mutated
  field. The pure functions `Executed` and `Revoked` give the record state after
  `execute` and `revoke`. The methods `Execute` and `Revoke` mutate a `Record`
  and are proved against those functions. They cover the key operation of
  `DefaultRecordEditingSupport.java` (lines 88-96) as well as the power-state,
  data-reference and list-item operations of the Alternative Carrier
  dispatcher. This file also proves the inverse and alternation laws.
- `default_record_editing.dfy` and `alternative_carrier_editing.dfy` hold the
  two dispatchers. `getValue`, `getCellEditor` and the decision of `setValue`
  are pure functions of the record snapshot and the node's kind and slot.
  `Commit` binds a decided change to the live record and node. The label and
  index helpers are methods with loops, as in the source.

Behaviour of the code that the model keeps as it is:

- A property slot other than 0 or 1 makes `setValue` return no operation,
  silently, whatever the value. `getValue` on the same slot fails. See
  `OtherPropertySlots`.
- Slot 1 compares the committed text with the stored reference using Java's
  `equals`, so an unset reference equals no text. Committing `""` onto an unset
  reference still yields an operation, although `getValue` shows `""` before
  and after. See `UnsetReferenceStillEdits`.
- A list-item operation re-reads the node's index each time it is executed or
  revoked. Revoke restores the record exactly whenever the entry at the node's
  current index is the captured one (`RevokeUndoesExecute`, `AlternationLaw`).
  That includes an entry that has shifted together with its node
  (`ShiftedItemIsRestored`). When the node's index and the list fall out of
  step, execute and revoke write another entry (`MovedItemIsNotRestored`).
- A list container (property-list node) gets no editor: the Alternative
  Carrier dispatcher passes it to the fallback, which fails
  (`ContainersAreNotEdited`). Only property slot 2 gets a null editor.
- A parent-property node gets the present / not present editor. But this
  dispatcher passes its value reads and writes to the fallback, which rejects
  them (`ParentPropertyNodeIsRejectedByValue`).

## Model

| member | source | states |
|---|---|---|
| `NdefModel.Ordinal` | nfc-eclipse-plugin/src/org/nfc/eclipse/plugin/model/editing/AlternativeCarrierRecordSelectEditingSupport.java:162-163 | a power state's ordinal is its position among the constants in declaration order |
| `Operations.Written` | nfc-eclipse-plugin/src/org/nfc/eclipse/plugin/model/editing/AlternativeCarrierRecordSelectEditingSupport.java:133-144 | writing one auxiliary entry succeeds exactly for an index inside the list; the entry then holds the text, and the length and every other entry and field stay the same |
| `Operations.OnlyTargetFieldChanges` | nfc-eclipse-plugin/src/org/nfc/eclipse/plugin/model/editing/AlternativeCarrierRecordSelectEditingSupport.java:69-146 | execute and revoke change only the field (or the one list entry) their change targets; execute leaves it holding next and revoke leaves it holding previous |
| `Operations.RevokeUndoesExecute` | nfc-eclipse-plugin/src/org/nfc/eclipse/plugin/model/editing/AlternativeCarrierRecordSelectEditingSupport.java:69-146 | whenever the target holds the captured previous value (for an item, the entry at the node's index read at call time), execute succeeds and revoke restores the record exactly |
| `Operations.ExecuteAfterRevoke` | nfc-eclipse-plugin/src/org/nfc/eclipse/plugin/model/editing/AlternativeCarrierRecordSelectEditingSupport.java:69-146 | execute, revoke, execute ends in the same state as the first execute |
| `Operations.EffectiveChangeAltersRecord` | nfc-eclipse-plugin/src/org/nfc/eclipse/plugin/model/editing/AlternativeCarrierRecordSelectEditingSupport.java:68-69 | a change whose next differs from its captured previous always alters the record when executed |
| `Operations.AlternationLaw` | nfc-eclipse-plugin/src/org/nfc/eclipse/plugin/model/editing/AlternativeCarrierRecordSelectEditingSupport.java:69-146 | any number of alternating execute/revoke calls leaves the original record after an even count and the executed record after an odd count |
| `Operations.MovedItemIsNotRestored` | nfc-eclipse-plugin/src/org/nfc/eclipse/plugin/model/editing/AlternativeCarrierRecordSelectEditingSupport.java:130-145 | because the index is re-read at call time, an item operation whose node index has fallen out of step with the list writes another entry, and revoke does not restore the list |
| `Operations.ShiftedItemIsRestored` | nfc-eclipse-plugin/src/org/nfc/eclipse/plugin/model/editing/AlternativeCarrierRecordSelectEditingSupport.java:130-145 | an item operation whose node shifted together with its entry still writes and restores that entry exactly |
| `Operations.Execute` | nfc-eclipse-plugin/src/org/nfc/eclipse/plugin/model/editing/AlternativeCarrierRecordSelectEditingSupport.java:72-145 | the record's new state is `Executed` of its old state at the node's current index; a failed list write leaves the record unchanged |
| `Operations.Revoke` | nfc-eclipse-plugin/src/org/nfc/eclipse/plugin/model/editing/AlternativeCarrierRecordSelectEditingSupport.java:78-145 | the record's new state is `Revoked` of its old state at the node's current index; a failed list write leaves the record unchanged |
| `Operations.SetAuxiliary` | nfc-eclipse-plugin/src/org/nfc/eclipse/plugin/model/editing/AlternativeCarrierRecordSelectEditingSupport.java:133-135 | the record's list is `Written` at the index, or unchanged with an index fault |
| `DefaultRecordEditing.CanEdit` | nfc-eclipse-plugin/src/org/nfc/eclipse/plugin/model/editing/DefaultRecordEditingSupport.java:67-72 | a node is editable exactly when it is not a property-list container |
| `DefaultRecordEditing.SetValue` | nfc-eclipse-plugin/src/org/nfc/eclipse/plugin/model/editing/DefaultRecordEditingSupport.java:75-113 | non-record nodes fail; on a record node a String yields no operation exactly when it equals the key, otherwise an effective key change captured from the record; other value types fail |
| `DefaultRecordEditing.GetValue` | nfc-eclipse-plugin/src/org/nfc/eclipse/plugin/model/editing/DefaultRecordEditingSupport.java:116-124 | succeeds exactly on record nodes and shows the key (null when unset); other nodes fail as unsupported |
| `DefaultRecordEditing.GetCellEditor` | nfc-eclipse-plugin/src/org/nfc/eclipse/plugin/model/editing/DefaultRecordEditingSupport.java:127-133 | a record node gets a text editor; every other node fails as unsupported |
| `DefaultRecordEditing.KeyEditRoundTrip` | nfc-eclipse-plugin/src/org/nfc/eclipse/plugin/model/editing/DefaultRecordEditingSupport.java:81-108 | after committing a key and executing, `getValue` shows the new key; revoking restores the record; committing the current key gives no operation |
| `DefaultRecordEditing.ChoiceLabelList` | nfc-eclipse-plugin/src/org/nfc/eclipse/plugin/model/editing/DefaultRecordEditingSupport.java:137-151 | nullable: n+1 labels, label 0 is "-" and label i+1 is text i; otherwise exactly the n texts |
| `DefaultRecordEditing.ChoiceLabels` | nfc-eclipse-plugin/src/org/nfc/eclipse/plugin/model/editing/DefaultRecordEditingSupport.java:135-156 | the array filled by the loops is the choice-label layout of the values' texts |
| `DefaultRecordEditing.RecordTypeChoiceLabels` | nfc-eclipse-plugin/src/org/nfc/eclipse/plugin/model/editing/DefaultRecordEditingSupport.java:158-166 | the record-type labels, one per value in order, laid out with or without the leading "-" |
| `DefaultRecordEditing.GetIndex` | nfc-eclipse-plugin/src/org/nfc/eclipse/plugin/model/editing/DefaultRecordEditingSupport.java:168-177 | result in -1..n-1; a non-negative result is the first position holding the value; -1 exactly when the value is null or absent |
| `AlternativeCarrierEditing.DecodePowerState` | nfc-eclipse-plugin/src/org/nfc/eclipse/plugin/model/editing/AlternativeCarrierRecordSelectEditingSupport.java:58-66 | -1 decodes to unset; an index i in range decodes to the state whose ordinal is i; anything else is an index fault |
| `AlternativeCarrierEditing.EncodePowerState` | nfc-eclipse-plugin/src/org/nfc/eclipse/plugin/model/editing/AlternativeCarrierRecordSelectEditingSupport.java:162-166 | the shown index is in -1..N-1, is -1 exactly when unset, and decodes back to the stored state |
| `AlternativeCarrierEditing.DecodeThenEncode` | nfc-eclipse-plugin/src/org/nfc/eclipse/plugin/model/editing/AlternativeCarrierRecordSelectEditingSupport.java:61-63 | every committable index in -1..N-1 decodes and encodes back to itself |
| `AlternativeCarrierEditing.SetValue` | nfc-eclipse-plugin/src/org/nfc/eclipse/plugin/model/editing/AlternativeCarrierRecordSelectEditingSupport.java:50-153 | every operation targets the node's field, captures its current value and is effective; slots other than 0 and 1 give no operation; record, parent-property and list nodes go to the fallback |
| `AlternativeCarrierEditing.GetValue` | nfc-eclipse-plugin/src/org/nfc/eclipse/plugin/model/editing/AlternativeCarrierRecordSelectEditingSupport.java:155-180 | fails exactly on other slots, out-of-range items and non-record delegated nodes; slot 0 shows an index that decodes to the stored state; slot 1 shows the reference or ""; an item shows its entry |
| `AlternativeCarrierEditing.GetCellEditor` | nfc-eclipse-plugin/src/org/nfc/eclipse/plugin/model/editing/AlternativeCarrierRecordSelectEditingSupport.java:182-203 | fails exactly for property slots outside 0..2 and list containers; the only choice over states has one label per state in declaration order |
| `AlternativeCarrierEditing.Commit` | nfc-eclipse-plugin/src/org/nfc/eclipse/plugin/model/editing/AlternativeCarrierRecordSelectEditingSupport.java:69-127 | the returned operation carries the decided change, the node's record and the node itself; no operation or a fault exactly when the decision says so |
| `AlternativeCarrierEditing.PowerStateEditRoundTrip` | nfc-eclipse-plugin/src/org/nfc/eclipse/plugin/model/editing/AlternativeCarrierRecordSelectEditingSupport.java:56-85 | committing index i gives no operation iff the decoded state is stored; otherwise executing makes `getValue` show i and revoking restores the record |
| `AlternativeCarrierEditing.DataReferenceEditRoundTrip` | nfc-eclipse-plugin/src/org/nfc/eclipse/plugin/model/editing/AlternativeCarrierRecordSelectEditingSupport.java:87-111 | committing text t gives no operation iff t is the stored reference; otherwise executing makes `getValue` show t and revoking restores the record |
| `AlternativeCarrierEditing.UnsetReferenceStillEdits` | nfc-eclipse-plugin/src/org/nfc/eclipse/plugin/model/editing/AlternativeCarrierRecordSelectEditingSupport.java:90-94 | an unset reference shows "", yet committing "" yields an operation whose execution leaves the shown value unchanged |
| `AlternativeCarrierEditing.AuxiliaryEditRoundTrip` | nfc-eclipse-plugin/src/org/nfc/eclipse/plugin/model/editing/AlternativeCarrierRecordSelectEditingSupport.java:115-149 | committing t at entry k gives no operation iff entry k is t; otherwise executing shows t at k with length and all other entries unchanged, and revoking restores the record |
| `AlternativeCarrierEditing.OtherPropertySlots` | nfc-eclipse-plugin/src/org/nfc/eclipse/plugin/model/editing/AlternativeCarrierRecordSelectEditingSupport.java:172-173 | a slot other than 0 and 1 accepts any value with no operation but cannot be read; only slot 2 has a (null) editor |
| `AlternativeCarrierEditing.ParentPropertyNodeIsRejectedByValue` | nfc-eclipse-plugin/src/org/nfc/eclipse/plugin/model/editing/AlternativeCarrierRecordSelectEditingSupport.java:195-196 | a parent-property node is editable and gets the present / not present editor, while reading or committing its value fails |
| `AlternativeCarrierEditing.ContainersAreNotEdited` | nfc-eclipse-plugin/src/org/nfc/eclipse/plugin/model/editing/AlternativeCarrierRecordSelectEditingSupport.java:199-200 | a node `canEdit` refuses has no editor, no value and accepts no value |
| `AlternativeCarrierEditing.ChoiceIndexSelectsLabelledState` | nfc-eclipse-plugin/src/org/nfc/eclipse/plugin/model/editing/AlternativeCarrierRecordSelectEditingSupport.java:186-187 | the slot-0 label at choice index i names the state that committing i selects |
| `AlternativeCarrierEditing.DisplayedIndexIsAChoice` | nfc-eclipse-plugin/src/org/nfc/eclipse/plugin/model/editing/AlternativeCarrierRecordSelectEditingSupport.java:160-166 | slot 0 shows -1 exactly when unset, otherwise a choice position whose label names the stored state |
| `AlternativeCarrierEditing.EditScenario` | nfc-eclipse-plugin/src/org/nfc/eclipse/plugin/model/editing/DefaultRecordEditingSupport.java:81-108 | key "rec1" to "rec2" executes and revokes as expected; choice 2 selects the third state and -1 then unsets it |

## Left out

- `DefaultRecordEditingSupport.load` is not part of this model: it reads a file and shows an error dialog. This is I/O.
- `FileDialogUtil` is not part of this model. It deals with file dialogs, MIME detection and global registries, outside the editing core.
- Widgets are left out. Editors are a kind tag plus their labels. The tree viewer and the `ComboBoxCellEditor` style flag are not modelled.
- The texts of the shared present / not present choice (`PRESENT_OR_NOT`) are not modelled, because that constant is defined outside this core.
- `super.execute()` and `super.revoke()` of the generic property and list-item operation classes are not modelled, because those classes are not part of this model. Only the record mutation the anonymous subclasses perform is modelled.
- The record comes from the nfctools library. Its internals are not modelled. It is modelled as plain fields. "Has" means not null. The auxiliary list is read and written by index, and an index outside the list fails.
- The power-state constants and their declaration order follow the Carrier Power State values of the NFC Forum Connection Handover specification. The label texts are the constants' names as the model spells them; the library's own constant names are not part of this model.
- Null entries inside the auxiliary list are not modelled. Null elements of the `getIndex` array are not modelled either (in Java they raise a NullPointerException in `equals`).
- A ClassCastException from a node whose record is not an Alternative Carrier record is not modelled: a node's record is always one.
- Java exceptions are modelled as `Fault` results. Their messages are not modelled.
- Java's 32-bit `int` is modelled as an unbounded integer. Only indices near the list and enumeration sizes matter.
