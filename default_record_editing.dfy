/** The fallback dispatcher: edits the key of a record node, rejects every other
    node kind, and builds the labels of choice editors for the record-specific
    dispatchers. */
module DefaultRecordEditing {
  import opened NdefModel
  import opened Operations

  /** Only a list container has no value of its own to edit. */
  function CanEdit(kind: NodeKind): (r: bool)
    ensures r <==> kind != PropertyListNode
  {
    !kind.PropertyListNode?
  }

  /** The value shown for a text held in an optional field: the text, or null. */
  function TextValue(o: Option<string>): Value
  {
    if o.Some? then Str(o.value) else Null
  }

  /** `setValue` on a record node: no operation when the committed text is the
      current key, else a key change captured from the record. Other nodes fail. */
  function SetValue(s: RecordState, v: NodeView, value: Value): (r: Result<Option<Change>, Fault>)
    ensures !v.kind.RecordNode? ==> r == Failure(UnsupportedNode)
    ensures v.kind.RecordNode? ==> (r.Success? <==> value.Str?)
    ensures r == Success(None) <==> v.kind.RecordNode? && value.Str? && s.key == Some(value.s)
    ensures r.Success? && r.value.Some? ==>
      && r.value.value.KeyChange? && r.value.value.nextKey == value.s
      && CapturedFrom(s, r.value.value, v.parentIndex) && Effective(r.value.value)
  {
    if v.kind.RecordNode? then
      match value
      case Int(_) => Failure(ClassCast)
      case Null => Failure(NullValue)
      case Str(text) =>
        if s.key == Some(text) then Success(None) else Success(Some(KeyChange(s.key, text)))
    else
      Failure(UnsupportedNode)
  }

  /** `getValue` on a record node: the key (null when unset). Other nodes fail. */
  function GetValue(s: RecordState, v: NodeView): (r: Result<Value, Fault>)
    ensures r.Success? <==> v.kind.RecordNode?
    ensures r.Failure? ==> r.error == UnsupportedNode
    ensures r.Success? ==> (r.value.Str? <==> s.key.Some?) && !r.value.Int?
    ensures r.Success? && s.key.Some? ==> r.value.s == s.key.value
  {
    if v.kind.RecordNode? then Success(TextValue(s.key)) else Failure(UnsupportedNode)
  }

  /** `getCellEditor` on a record node: a text editor for the key. Other nodes fail. */
  function GetCellEditor(v: NodeView): (r: Result<CellEditor, Fault>)
    ensures r.Success? <==> v.kind.RecordNode?
    ensures r.Success? ==> r.value == TextEditor
    ensures r.Failure? ==> r.error == UnsupportedNode
  {
    if v.kind.RecordNode? then Success(TextEditor) else Failure(UnsupportedNode)
  }

  /** Committing a new key and executing the operation makes `getValue` show
      it; revoking restores the record and the key it showed before. Committing
      the current key yields no operation and the key is already shown. */
  lemma KeyEditRoundTrip(s: RecordState, index: int, text: string)
    ensures var v := NodeView(RecordNode, index);
            var r := SetValue(s, v, Str(text));
            && r.Success?
            && (r.value.None? ==> GetValue(s, v) == Success(Str(text)))
            && (r.value.Some? ==>
                  && Executed(s, r.value.value, index).Success?
                  && GetValue(Executed(s, r.value.value, index).value, v) == Success(Str(text))
                  && Revoked(Executed(s, r.value.value, index).value, r.value.value, index) == Success(s))
  {
    var v := NodeView(RecordNode, index);
    var r := SetValue(s, v, Str(text));
    if r.value.Some? {
      RevokeUndoesExecute(s, r.value.value, index);
    }
  }

  /** The texts of `values`, one per value, in order. */
  function Texts<T>(values: seq<T>, text: T -> string): (r: seq<string>)
    ensures |r| == |values|
    ensures forall i :: 0 <= i < |values| ==> r[i] == text(values[i])
  {
    seq(|values|, i requires 0 <= i < |values| => text(values[i]))
  }

  /** The labels of a choice editor: with `nullable`, a leading "-" for "unset"
      shifts every text one place. */
  function ChoiceLabelList(texts: seq<string>, nullable: bool): (r: seq<string>)
    ensures nullable ==> |r| == |texts| + 1 && r[0] == "-"
    ensures nullable ==> forall i :: 0 <= i < |texts| ==> r[i + 1] == texts[i]
    ensures !nullable ==> r == texts
  {
    if nullable then ["-"] + texts else texts
  }

  /** `getComboBoxCellEditor(Object[], boolean)`: fills a fresh array of labels
      from the values' texts, after a leading "-" when the field is nullable. */
  method ChoiceLabels<T>(values: seq<T>, text: T -> string, nullable: bool) returns (labels: seq<string>)
    ensures labels == ChoiceLabelList(Texts(values, text), nullable)
  {
    var strings: array<string>;
    if nullable {
      strings := new string[|values| + 1];
      strings[0] := "-";
      for i := 0 to |values|
        invariant strings[0] == "-"
        invariant forall j :: 1 <= j <= i ==> strings[j] == text(values[j - 1])
      {
        strings[1 + i] := text(values[i]);
      }
    } else {
      strings := new string[|values|];
      for i := 0 to |values|
        invariant forall j :: 0 <= j < i ==> strings[j] == text(values[j])
      {
        strings[i] := text(values[i]);
      }
    }
    labels := strings[..];
    assert forall j :: 0 <= j < |labels| ==> labels[j] == ChoiceLabelList(Texts(values, text), nullable)[j];
  }

  /** `getComboBoxCellEditor(NdefRecordType[], boolean)`: the record-type labels,
      laid out as any other choice. */
  method RecordTypeChoiceLabels<T>(values: seq<T>, recordLabel: T -> string, nullable: bool)
    returns (labels: seq<string>)
    ensures labels == ChoiceLabelList(Texts(values, recordLabel), nullable)
  {
    var strings := new string[|values|];
    for i := 0 to |values|
      invariant forall j :: 0 <= j < i ==> strings[j] == recordLabel(values[j])
    {
      strings[i] := recordLabel(values[i]);
    }
    labels := ChoiceLabels(strings[..], s => s, nullable);
    assert Texts(strings[..], s => s) == Texts(values, recordLabel);
  }

  /** `getIndex`: the first position holding `value`, or -1 when `value` is null
      or absent. */
  method GetIndex<T(==)>(values: seq<T>, value: Option<T>) returns (index: int)
    ensures -1 <= index < |values|
    ensures index >= 0 ==> value == Some(values[index])
    ensures index >= 0 ==> forall j :: 0 <= j < index ==> Some(values[j]) != value
    ensures index == -1 <==> value.None? || value.value !in values
  {
    if value.Some? {
      for i := 0 to |values|
        invariant forall j :: 0 <= j < i ==> values[j] != value.value
      {
        if values[i] == value.value {
          return i;
        }
      }
    }
    return -1;
  }
}
