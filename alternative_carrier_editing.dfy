/** The dispatcher for Alternative Carrier records. Property slot 0 is the carrier
    power state (a choice), slot 1 the carrier data reference (text), slot 2 has
    no editor; list items are the auxiliary data references. Record nodes and
    the remaining kinds go to the fallback dispatcher. */
module AlternativeCarrierEditing {
  import opened NdefModel
  import opened Operations
  import DefaultRecordEditing

  /** The committed choice index of slot 0: -1 is unset, any other index selects
      a constant by declaration order, and an index outside the constants fails
      as the array access does. */
  function DecodePowerState(index: int): (r: Result<Option<PowerState>, Fault>)
    ensures r.Success? <==> -1 <= index < |PowerStates|
    ensures r.Failure? ==> r.error == IndexOutOfRange
    ensures r == Success(None) <==> index == -1
    ensures r.Success? && r.value.Some? ==> Ordinal(r.value.value) == index
  {
    if index == -1 then Success(None)
    else if 0 <= index < |PowerStates| then Success(Some(PowerStates[index]))
    else Failure(IndexOutOfRange)
  }

  /** The choice index slot 0 shows: the ordinal, or -1 when unset. Decoding it
      gives back the stored state. */
  function EncodePowerState(state: Option<PowerState>): (r: int)
    ensures -1 <= r < |PowerStates|
    ensures r == -1 <==> state.None?
    ensures DecodePowerState(r) == Success(state)
  {
    if state.Some? then Ordinal(state.value) else -1
  }

  /** Every index the choice editor can commit encodes back to itself. */
  lemma DecodeThenEncode(index: int)
    requires -1 <= index < |PowerStates|
    ensures DecodePowerState(index).Success?
    ensures EncodePowerState(DecodePowerState(index).value) == index
  {
  }

  /** The labels of the slot-0 choice: one per constant, without an unset entry. */
  function PowerStateLabels(): seq<string>
  {
    DefaultRecordEditing.ChoiceLabelList(DefaultRecordEditing.Texts(PowerStates, PowerStateText), false)
  }

  /** The change kind each edited node produces. */
  predicate Targets(v: NodeView, c: Change)
  {
    match v.kind
    case RecordNode => c.KeyChange?
    case PropertyNode => (v.parentIndex == 0 && c.PowerStateChange?) || (v.parentIndex == 1 && c.DataReferenceChange?)
    case PropertyListItemNode => c.AuxiliaryChange?
    case _ => false
  }

  /** Is `v` one of the kinds handed to the fallback dispatcher? */
  predicate Delegated(v: NodeView)
  {
    v.kind.RecordNode? || v.kind.ParentPropertyNode? || v.kind.PropertyListNode?
  }

  /** `setValue`: compares the committed value with the field and yields either
      no operation or a change captured from the record; it never mutates. A
      property slot other than 0 and 1 yields no operation whatever the value. */
  function SetValue(s: RecordState, v: NodeView, value: Value): (r: Result<Option<Change>, Fault>)
    ensures r.Success? && r.value.Some? ==>
      && Targets(v, r.value.value)
      && CapturedFrom(s, r.value.value, v.parentIndex)
      && Effective(r.value.value)
    ensures v.kind.PropertyNode? && v.parentIndex != 0 && v.parentIndex != 1 ==> r == Success(None)
    ensures v.kind.PropertyNode? && v.parentIndex == 0 && value.Int? ==>
      (r.Failure? <==> DecodePowerState(value.i).Failure?)
    ensures v.kind.PropertyNode? && ((v.parentIndex == 0 && !value.Int?) || (v.parentIndex == 1 && !value.Str?)) ==>
      r.Failure?
    ensures v.kind.PropertyListItemNode? ==>
      (r.Success? <==> value.Str? && 0 <= v.parentIndex < |s.auxiliary|)
    ensures Delegated(v) ==> r == DefaultRecordEditing.SetValue(s, v, value)
  {
    match v.kind
    case PropertyNode =>
      if v.parentIndex == 0 then
        match value
        case Str(_) => Failure(ClassCast)
        case Null => Failure(NullValue)
        case Int(index) =>
          var decoded := DecodePowerState(index);
          if decoded.Failure? then Failure(decoded.error)
          else if decoded.value == s.powerState then Success(None)
          else Success(Some(PowerStateChange(s.powerState, decoded.value)))
      else if v.parentIndex == 1 then
        match value
        case Int(_) => Failure(ClassCast)
        case Null => Failure(NullValue)
        case Str(text) =>
          if s.dataReference == Some(text) then Success(None)
          else Success(Some(DataReferenceChange(s.dataReference, text)))
      else
        Success(None)
    case PropertyListItemNode =>
      var k := v.parentIndex;
      if value.Int? then Failure(ClassCast)
      else if !(0 <= k < |s.auxiliary|) then Failure(IndexOutOfRange)
      else if value.Null? then Failure(NullValue)
      else if value.s == s.auxiliary[k] then Success(None)
      else Success(Some(AuxiliaryChange(s.auxiliary[k], value.s)))
    case _ =>
      DefaultRecordEditing.SetValue(s, v, value)
  }

  /** `getValue`: slot 0 shows the power state's choice index, slot 1 the data
      reference with "" for unset, a list item its entry; other property slots,
      list items outside the list and non-record delegated nodes fail. */
  function GetValue(s: RecordState, v: NodeView): (r: Result<Value, Fault>)
    ensures r.Failure? <==>
      || (v.kind.PropertyNode? && v.parentIndex != 0 && v.parentIndex != 1)
      || (v.kind.PropertyListItemNode? && !(0 <= v.parentIndex < |s.auxiliary|))
      || v.kind.ParentPropertyNode? || v.kind.PropertyListNode?
    ensures v.kind.PropertyNode? && v.parentIndex == 0 && r.Success? ==>
      r.value.Int? && DecodePowerState(r.value.i) == Success(s.powerState)
    ensures v.kind.PropertyNode? && v.parentIndex == 1 && r.Success? ==>
      r.value.Str? && (s.dataReference.Some? ==> r.value.s == s.dataReference.value)
                   && (s.dataReference.None? ==> r.value.s == "")
    ensures v.kind.PropertyListItemNode? && r.Success? ==>
      r.value == Str(s.auxiliary[v.parentIndex])
    ensures Delegated(v) ==> r == DefaultRecordEditing.GetValue(s, v)
  {
    match v.kind
    case PropertyNode =>
      if v.parentIndex == 0 then Success(Int(EncodePowerState(s.powerState)))
      else if v.parentIndex == 1 then
        Success(Str(if s.dataReference.Some? then s.dataReference.value else ""))
      else Failure(UnsupportedNode)
    case PropertyListItemNode =>
      if 0 <= v.parentIndex < |s.auxiliary| then Success(Str(s.auxiliary[v.parentIndex]))
      else Failure(IndexOutOfRange)
    case _ =>
      DefaultRecordEditing.GetValue(s, v)
  }

  /** `getCellEditor`: slot 0 a choice over the power states, slot 1 text, slot 2
      none; a parent-property node the present / not present choice; a list item
      text. Other property slots and list containers fail. */
  function GetCellEditor(v: NodeView): (r: Result<CellEditor, Fault>)
    ensures r.Failure? <==>
      || (v.kind.PropertyNode? && !(0 <= v.parentIndex <= 2))
      || v.kind.PropertyListNode?
    ensures r.Success? && r.value.ChoiceEditor? ==>
      && |r.value.labels| == |PowerStates|
      && forall i :: 0 <= i < |PowerStates| ==> r.value.labels[i] == PowerStateText(PowerStates[i])
    ensures v.kind.PropertyNode? && v.parentIndex == 0 ==> r == Success(ChoiceEditor(PowerStateLabels()))
    ensures v.kind.PropertyNode? && v.parentIndex == 1 ==> r == Success(TextEditor)
    ensures v.kind.PropertyNode? && v.parentIndex == 2 ==> r == Success(NoEditor)
    ensures v.kind.ParentPropertyNode? ==> r == Success(PresentOrNotEditor)
    ensures v.kind.PropertyListItemNode? ==> r == Success(TextEditor)
    ensures v.kind.RecordNode? || v.kind.PropertyListNode? ==> r == DefaultRecordEditing.GetCellEditor(v)
  {
    match v.kind
    case PropertyNode =>
      if v.parentIndex == 0 then Success(ChoiceEditor(PowerStateLabels()))
      else if v.parentIndex == 1 then Success(TextEditor)
      else if v.parentIndex == 2 then Success(NoEditor)
      else Failure(UnsupportedNode)
    case ParentPropertyNode => Success(PresentOrNotEditor)
    case PropertyListItemNode => Success(TextEditor)
    case _ => DefaultRecordEditing.GetCellEditor(v)
  }

  /** `setValue` as the editor host sees it: the decided change bound to the
      node's record and to the node itself. Nothing is executed. */
  function Commit(node: Node, value: Value): (r: Result<Option<Operation>, Fault>)
    reads node, node.record
    ensures var d := SetValue(node.record.State(), node.View(), value);
      && (r.Failure? <==> d.Failure?)
      && (r == Success(None) <==> d == Success(None))
      && (r.Success? && r.value.Some? ==>
            && r.value.value.record == node.record && r.value.value.node == node
            && d == Success(Some(r.value.value.change)))
  {
    match SetValue(node.record.State(), node.View(), value)
    case Failure(e) => Failure(e)
    case Success(None) => Success(None)
    case Success(Some(c)) => Success(Some(Operation(node.record, node, c)))
  }

  /** Slot 0: committing choice index `i` yields no operation exactly when the
      decoded state is already stored; otherwise executing the operation makes
      `getValue` show `i`, and revoking restores the record. */
  lemma PowerStateEditRoundTrip(s: RecordState, i: int)
    requires -1 <= i < |PowerStates|
    ensures var v := NodeView(PropertyNode, 0);
            var r := SetValue(s, v, Int(i));
            && r.Success?
            && (r.value.None? <==> DecodePowerState(i) == Success(s.powerState))
            && (r.value.None? ==> GetValue(s, v) == Success(Int(i)))
            && (r.value.Some? ==>
                  && r.value.value == PowerStateChange(s.powerState, DecodePowerState(i).value)
                  && Executed(s, r.value.value, 0).Success?
                  && GetValue(Executed(s, r.value.value, 0).value, v) == Success(Int(i))
                  && Revoked(Executed(s, r.value.value, 0).value, r.value.value, 0) == Success(s))
  {
    var v := NodeView(PropertyNode, 0);
    var r := SetValue(s, v, Int(i));
    DecodeThenEncode(i);
    if r.value.Some? {
      RevokeUndoesExecute(s, r.value.value, 0);
    }
  }

  /** Slot 1: committing text `t` yields no operation exactly when `t` is the
      stored reference (an unset reference equals no text); otherwise executing
      makes `getValue` show `t` and revoking restores the record. */
  lemma DataReferenceEditRoundTrip(s: RecordState, t: string)
    ensures var v := NodeView(PropertyNode, 1);
            var r := SetValue(s, v, Str(t));
            && r.Success?
            && (r.value.None? <==> s.dataReference == Some(t))
            && (r.value.None? ==> GetValue(s, v) == Success(Str(t)))
            && (r.value.Some? ==>
                  && r.value.value == DataReferenceChange(s.dataReference, t)
                  && Executed(s, r.value.value, 1).Success?
                  && GetValue(Executed(s, r.value.value, 1).value, v) == Success(Str(t))
                  && Revoked(Executed(s, r.value.value, 1).value, r.value.value, 1) == Success(s))
  {
    var v := NodeView(PropertyNode, 1);
    var r := SetValue(s, v, Str(t));
    if r.value.Some? {
      RevokeUndoesExecute(s, r.value.value, 1);
    }
  }

  /** An unset data reference shows as "", yet committing "" still yields an
      operation, because an unset reference equals no text. Executing it stores
      "" and `getValue` shows the same "" as before. */
  lemma UnsetReferenceStillEdits(s: RecordState)
    requires s.dataReference.None?
    ensures var v := NodeView(PropertyNode, 1);
            && GetValue(s, v) == Success(Str(""))
            && SetValue(s, v, Str("")) == Success(Some(DataReferenceChange(None, "")))
            && Executed(s, DataReferenceChange(None, ""), 1) == Success(s.(dataReference := Some("")))
            && GetValue(s.(dataReference := Some("")), v) == GetValue(s, v)
  {
  }

  /** List item at `k`: committing text `t` yields no operation exactly when
      entry `k` is `t`; otherwise executing makes `getValue` show `t` while the
      length and every other entry stay, and revoking restores the record. */
  lemma AuxiliaryEditRoundTrip(s: RecordState, k: int, t: string)
    requires 0 <= k < |s.auxiliary|
    ensures var v := NodeView(PropertyListItemNode, k);
            var r := SetValue(s, v, Str(t));
            && r.Success?
            && (r.value.None? <==> s.auxiliary[k] == t)
            && (r.value.None? ==> GetValue(s, v) == Success(Str(t)))
            && (r.value.Some? ==>
                  && r.value.value == AuxiliaryChange(s.auxiliary[k], t)
                  && Executed(s, r.value.value, k).Success?
                  && GetValue(Executed(s, r.value.value, k).value, v) == Success(Str(t))
                  && |Executed(s, r.value.value, k).value.auxiliary| == |s.auxiliary|
                  && (forall j :: 0 <= j < |s.auxiliary| && j != k ==>
                        Executed(s, r.value.value, k).value.auxiliary[j] == s.auxiliary[j])
                  && Revoked(Executed(s, r.value.value, k).value, r.value.value, k) == Success(s))
  {
    var v := NodeView(PropertyListItemNode, k);
    var r := SetValue(s, v, Str(t));
    if r.value.Some? {
      RevokeUndoesExecute(s, r.value.value, k);
    }
  }

  /** A property slot other than 0 and 1 silently accepts any value without an
      operation, while reading it fails; only slot 2 has an (empty) editor. */
  lemma OtherPropertySlots(s: RecordState, slot: int, value: Value)
    requires slot != 0 && slot != 1
    ensures SetValue(s, NodeView(PropertyNode, slot), value) == Success(None)
    ensures GetValue(s, NodeView(PropertyNode, slot)) == Failure(UnsupportedNode)
    ensures GetCellEditor(NodeView(PropertyNode, slot)) ==
      if slot == 2 then Success(NoEditor) else Failure(UnsupportedNode)
  {
  }

  /** A parent-property node is editable and gets the present / not present
      choice, but reading or committing its value goes to the fallback
      dispatcher, which rejects it. */
  lemma ParentPropertyNodeIsRejectedByValue(s: RecordState, index: int, value: Value)
    ensures var v := NodeView(ParentPropertyNode, index);
            && DefaultRecordEditing.CanEdit(v.kind)
            && GetCellEditor(v) == Success(PresentOrNotEditor)
            && GetValue(s, v) == Failure(UnsupportedNode)
            && SetValue(s, v, value) == Failure(UnsupportedNode)
  {
  }

  /** A node that cannot be edited has no editor, no value and accepts no value. */
  lemma ContainersAreNotEdited(s: RecordState, v: NodeView, value: Value)
    requires !DefaultRecordEditing.CanEdit(v.kind)
    ensures GetCellEditor(v) == Failure(UnsupportedNode)
    ensures GetValue(s, v) == Failure(UnsupportedNode)
    ensures SetValue(s, v, value) == Failure(UnsupportedNode)
  {
  }

  /** The slot-0 editor and the decoder agree: the label at choice index `i`
      names the state that committing `i` selects. */
  lemma ChoiceIndexSelectsLabelledState(i: int)
    requires 0 <= i < |PowerStateLabels()|
    ensures DecodePowerState(i).Success? && DecodePowerState(i).value.Some?
    ensures PowerStateLabels()[i] == PowerStateText(DecodePowerState(i).value.value)
  {
  }

  /** The index slot 0 shows is -1 or a position of the slot-0 editor whose
      label names the stored state. */
  lemma DisplayedIndexIsAChoice(s: RecordState)
    ensures var r := GetValue(s, NodeView(PropertyNode, 0));
            && r.Success? && r.value.Int?
            && (r.value.i == -1 <==> s.powerState.None?)
            && (s.powerState.Some? ==>
                  && 0 <= r.value.i < |PowerStateLabels()|
                  && PowerStateLabels()[r.value.i] == PowerStateText(s.powerState.value))
  {
  }

  /** A record keyed "rec1" with no power state: committing key "rec2" then
      executing and revoking; committing choice 2 selects the third state, and
      committing -1 afterwards unsets it again. */
  lemma EditScenario()
    ensures var s := RecordState(Some("rec1"), None, Some(""), []);
            var key := NodeView(RecordNode, 0);
            var state := NodeView(PropertyNode, 0);
            && SetValue(s, key, Str("rec2")) == Success(Some(KeyChange(Some("rec1"), "rec2")))
            && Executed(s, KeyChange(Some("rec1"), "rec2"), 0) == Success(s.(key := Some("rec2")))
            && Revoked(s.(key := Some("rec2")), KeyChange(Some("rec1"), "rec2"), 0) == Success(s)
            && SetValue(s, state, Int(2)) == Success(Some(PowerStateChange(None, Some(Activating))))
            && SetValue(s.(powerState := Some(Activating)), state, Int(-1))
               == Success(Some(PowerStateChange(Some(Activating), None)))
            && Executed(s.(powerState := Some(Activating)), PowerStateChange(Some(Activating), None), 0)
               == Success(s)
  {
  }
}
