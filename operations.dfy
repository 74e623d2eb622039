/** The reversible operations the dispatchers hand to the undo/redo history.
    Each operation captures the previous and the next value of one field;
    `execute` writes the next value, `revoke` the previous one. */
module Operations {
  import opened NdefModel

  /** One variant per mutated field, with the values captured when the edit was committed. */
  datatype Change =
    | KeyChange(previousKey: Option<string>, nextKey: string)
    | PowerStateChange(previousState: Option<PowerState>, nextState: Option<PowerState>)
    | DataReferenceChange(previousReference: Option<string>, nextReference: string)
    | AuxiliaryChange(previousItem: string, nextItem: string)

  /** An operation: the change together with the record it writes and the node the
      edit was committed on. Only an auxiliary change reads the node, at call time. */
  datatype Operation = Operation(record: Record, node: Node, change: Change)

  /** `previous` is what the target field holds in `s`; for an auxiliary change the
      target is the entry at `index`. */
  predicate CapturedFrom(s: RecordState, c: Change, index: int)
  {
    match c
    case KeyChange(previous, _) => s.key == previous
    case PowerStateChange(previous, _) => s.powerState == previous
    case DataReferenceChange(previous, _) => s.dataReference == previous
    case AuxiliaryChange(previous, _) => 0 <= index < |s.auxiliary| && s.auxiliary[index] == previous
  }

  /** The change is not a no-op: the next value differs from the previous one. */
  predicate Effective(c: Change)
  {
    match c
    case KeyChange(previous, next) => previous != Some(next)
    case PowerStateChange(previous, next) => previous != next
    case DataReferenceChange(previous, next) => previous != Some(next)
    case AuxiliaryChange(previous, next) => previous != next
  }

  /** `setAuxiliaryDataReference(index, item)` on a list: fails outside the list. */
  function Written(s: RecordState, index: int, item: string): (r: Result<RecordState, Fault>)
    ensures r.Success? <==> 0 <= index < |s.auxiliary|
    ensures r.Success? ==>
      && r.value.key == s.key && r.value.powerState == s.powerState
      && r.value.dataReference == s.dataReference
      && |r.value.auxiliary| == |s.auxiliary| && r.value.auxiliary[index] == item
      && forall j :: 0 <= j < |s.auxiliary| && j != index ==> r.value.auxiliary[j] == s.auxiliary[j]
  {
    if 0 <= index < |s.auxiliary| then
      Success(s.(auxiliary := s.auxiliary[index := item]))
    else
      Failure(IndexOutOfRange)
  }

  /** The record after `execute`; `index` is the node's index read at call time. */
  function Executed(s: RecordState, c: Change, index: int): Result<RecordState, Fault>
  {
    match c
    case KeyChange(_, next) => Success(s.(key := Some(next)))
    case PowerStateChange(_, next) => Success(s.(powerState := next))
    case DataReferenceChange(_, next) => Success(s.(dataReference := Some(next)))
    case AuxiliaryChange(_, next) => Written(s, index, next)
  }

  /** The record after `revoke`; `index` is the node's index read at call time. */
  function Revoked(s: RecordState, c: Change, index: int): Result<RecordState, Fault>
  {
    match c
    case KeyChange(previous, _) => Success(s.(key := previous))
    case PowerStateChange(previous, _) => Success(s.(powerState := previous))
    case DataReferenceChange(previous, _) => Success(s.(dataReference := previous))
    case AuxiliaryChange(previous, _) => Written(s, index, previous)
  }

  /** Only the field a change targets differs between `s` and `t`. */
  predicate OnlyTargetDiffers(s: RecordState, t: RecordState, c: Change, index: int)
  {
    && (!c.KeyChange? ==> t.key == s.key)
    && (!c.PowerStateChange? ==> t.powerState == s.powerState)
    && (!c.DataReferenceChange? ==> t.dataReference == s.dataReference)
    && |t.auxiliary| == |s.auxiliary|
    && forall j :: 0 <= j < |s.auxiliary| && !(c.AuxiliaryChange? && j == index) ==>
         t.auxiliary[j] == s.auxiliary[j]
  }

  /** The target field of `t` holds the change's next value. */
  predicate HoldsNext(t: RecordState, c: Change, index: int)
  {
    match c
    case KeyChange(_, next) => t.key == Some(next)
    case PowerStateChange(_, next) => t.powerState == next
    case DataReferenceChange(_, next) => t.dataReference == Some(next)
    case AuxiliaryChange(_, next) => 0 <= index < |t.auxiliary| && t.auxiliary[index] == next
  }

  /** Execute and revoke write the target field and nothing else: execute leaves
      it holding `next`, revoke leaves it holding `previous`. */
  lemma OnlyTargetFieldChanges(s: RecordState, c: Change, index: int)
    ensures Executed(s, c, index).Success? ==>
      && OnlyTargetDiffers(s, Executed(s, c, index).value, c, index)
      && HoldsNext(Executed(s, c, index).value, c, index)
    ensures Revoked(s, c, index).Success? ==>
      && OnlyTargetDiffers(s, Revoked(s, c, index).value, c, index)
      && CapturedFrom(Revoked(s, c, index).value, c, index)
  {
  }

  /** Revoke undoes execute: whenever the target holds the captured previous value
      (for a list item, the entry at the node's index read at call time), revoke
      restores the record exactly. */
  lemma RevokeUndoesExecute(s: RecordState, c: Change, index: int)
    requires CapturedFrom(s, c, index)
    ensures Executed(s, c, index).Success?
    ensures Revoked(Executed(s, c, index).value, c, index) == Success(s)
  {
    if c.AuxiliaryChange? {
      var t := Executed(s, c, index).value;
      assert t.auxiliary[index := s.auxiliary[index]] == s.auxiliary;
    }
  }

  /** Redo after undo reapplies the identical value: execute, revoke, execute
      ends where the first execute did. */
  lemma ExecuteAfterRevoke(s: RecordState, c: Change, index: int)
    requires Executed(s, c, index).Success?
    ensures Revoked(Executed(s, c, index).value, c, index).Success?
    ensures Executed(Revoked(Executed(s, c, index).value, c, index).value, c, index)
         == Executed(s, c, index)
  {
    if c.AuxiliaryChange? {
      var t := Executed(s, c, index).value;
      var u := Revoked(t, c, index).value;
      assert u.auxiliary[index := t.auxiliary[index]] == t.auxiliary;
    }
  }

  /** An effective change captured from `s` is visible: executing it alters the record. */
  lemma EffectiveChangeAltersRecord(s: RecordState, c: Change, index: int)
    requires CapturedFrom(s, c, index) && Effective(c)
    ensures Executed(s, c, index).Success? && Executed(s, c, index).value != s
  {
    match c
    case AuxiliaryChange(previous, next) =>
      assert Executed(s, c, index).value.auxiliary[index] == next;
    case _ =>
  }

  /** The record after the undo/redo host has made `n` calls on an operation,
      alternating execute, revoke, execute, ... starting with execute. */
  function AfterCalls(s: RecordState, c: Change, index: int, n: nat): Result<RecordState, Fault>
  {
    if n == 0 then Success(s)
    else
      match AfterCalls(s, c, index, n - 1)
      case Failure(e) => Failure(e)
      case Success(t) => if n % 2 == 1 then Executed(t, c, index) else Revoked(t, c, index)
  }

  /** Any alternating sequence of calls ends in one of exactly two states: the
      original record after an even number of calls, the executed one after an odd number. */
  lemma {:induction false} AlternationLaw(s: RecordState, c: Change, index: int, n: nat)
    requires CapturedFrom(s, c, index)
    ensures AfterCalls(s, c, index, n) == if n % 2 == 0 then Success(s) else Executed(s, c, index)
  {
    RevokeUndoesExecute(s, c, index);
    if n > 0 {
      AlternationLaw(s, c, index, n - 1);
    }
  }

  /** A list-item change re-reads the node's index at call time. When an entry is
      inserted before the edited one, the node's index moves with its entry and
      execute and revoke still find it: entry "a" of ["a", "b"] edited to "x",
      then run at index 1 of ["n", "a", "b"], is written and restored exactly. */
  lemma ShiftedItemIsRestored()
    ensures var c := AuxiliaryChange("a", "x");
            var s := RecordState(None, None, None, ["n", "a", "b"]);
            && CapturedFrom(RecordState(None, None, None, ["a", "b"]), c, 0)
            && Executed(s, c, 1) == Success(s.(auxiliary := ["n", "x", "b"]))
            && Revoked(Executed(s, c, 1).value, c, 1) == Success(s)
  {
    var s := RecordState(None, None, None, ["n", "a", "b"]);
    assert ["n", "a", "b"][1 := "x"] == ["n", "x", "b"];
    assert ["n", "x", "b"][1 := "a"] == ["n", "a", "b"];
  }

  /** When the node's index and the list fall out of step, execute and revoke
      write another entry than the captured one, and revoke does not restore the
      list: entry 0 of ["a", "b"] edited to "x", then run with the node's index
      reading 1 on the same list, leaves ["a", "a"]. */
  lemma MovedItemIsNotRestored()
    ensures var s := RecordState(None, None, None, ["a", "b"]);
            var c := AuxiliaryChange("a", "x");
            && CapturedFrom(s, c, 0)
            && Executed(s, c, 1) == Success(s.(auxiliary := ["a", "x"]))
            && Revoked(Executed(s, c, 1).value, c, 1) == Success(s.(auxiliary := ["a", "a"]))
            && Revoked(Executed(s, c, 1).value, c, 1) != Success(s)
  {
    var s := RecordState(None, None, None, ["a", "b"]);
    assert ["a", "b"][1 := "x"] == ["a", "x"];
    assert ["a", "x"][1 := "a"] == ["a", "a"];
    assert ["a", "a"][1] != ["a", "b"][1];
  }

  /** `execute`: writes `next` into the target field of the record. A list-item
      change writes at the node's current index and fails when it is out of range. */
  method Execute(op: Operation) returns (outcome: Outcome)
    modifies op.record
    ensures var r := Executed(old(op.record.State()), op.change, old(op.node.parentIndex));
      && (r.Success? ==> outcome == Pass && op.record.State() == r.value)
      && (r.Failure? ==> outcome == Fail(r.error) && op.record.State() == old(op.record.State()))
  {
    var record := op.record;
    match op.change
    case KeyChange(_, next) =>
      record.key := Some(next);
      outcome := Pass;
    case PowerStateChange(_, next) =>
      record.powerState := next;
      outcome := Pass;
    case DataReferenceChange(_, next) =>
      record.dataReference := Some(next);
      outcome := Pass;
    case AuxiliaryChange(_, next) =>
      var index := op.node.parentIndex;
      outcome := SetAuxiliary(record, index, next);
  }

  /** `revoke`: writes `previous` back into the target field of the record. A
      list-item change writes at the node's current index. */
  method Revoke(op: Operation) returns (outcome: Outcome)
    modifies op.record
    ensures var r := Revoked(old(op.record.State()), op.change, old(op.node.parentIndex));
      && (r.Success? ==> outcome == Pass && op.record.State() == r.value)
      && (r.Failure? ==> outcome == Fail(r.error) && op.record.State() == old(op.record.State()))
  {
    var record := op.record;
    match op.change
    case KeyChange(previous, _) =>
      record.key := previous;
      outcome := Pass;
    case PowerStateChange(previous, _) =>
      record.powerState := previous;
      outcome := Pass;
    case DataReferenceChange(previous, _) =>
      record.dataReference := previous;
      outcome := Pass;
    case AuxiliaryChange(previous, _) =>
      var index := op.node.parentIndex;
      outcome := SetAuxiliary(record, index, previous);
  }

  /** `setAuxiliaryDataReference(index, item)` on the record's list. */
  method SetAuxiliary(record: Record, index: int, item: string) returns (outcome: Outcome)
    modifies record
    ensures var r := Written(old(record.State()), index, item);
      && (r.Success? ==> outcome == Pass && record.State() == r.value)
      && (r.Failure? ==> outcome == Fail(r.error) && record.State() == old(record.State()))
  {
    if 0 <= index < |record.auxiliary| {
      record.auxiliary := record.auxiliary[index := item];
      outcome := Pass;
    } else {
      outcome := Fail(IndexOutOfRange);
    }
  }
}
