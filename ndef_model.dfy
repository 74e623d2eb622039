/** The vocabulary shared by the editing dispatchers of the NDEF record editor:
    the values that cross the editor boundary, the faults a dispatcher raises,
    the Alternative Carrier record being edited and the tree nodes that show it. */
module NdefModel {

  datatype Option<+T> = None | Some(value: T)

  datatype Result<+R, +E> = Success(value: R) | Failure(error: E)

  /** Why a call fails. In the editor each of these is an unchecked Java exception. */
  datatype Fault =
    | UnsupportedNode   // the dispatcher does not handle this node kind or slot
    | ClassCast         // the committed value is not of the Java type the slot casts it to
    | NullValue         // the committed value is null where it is dereferenced
    | IndexOutOfRange   // an array or list index is out of bounds

  /** Outcome of executing or revoking an operation. */
  datatype Outcome = Pass | Fail(fault: Fault)

  /** A value as it crosses the editor boundary (a java.lang.Object):
      null, an Integer (a choice index) or a String (text). */
  datatype Value = Null | Int(i: int) | Str(s: string)

  /** The carrier power state of an Alternative Carrier record, one constant per
      value of the Carrier Power State field of the NFC Forum Connection Handover
      specification, in declaration order. */
  datatype PowerState = Inactive | Active | Activating | Unknown

  /** The constants in declaration order (Java's `values()`). */
  const PowerStates: seq<PowerState> := [Inactive, Active, Activating, Unknown]

  /** Java's `ordinal()`: the position of the constant in declaration order. */
  function Ordinal(p: PowerState): (r: nat)
    ensures r < |PowerStates| && PowerStates[r] == p
  {
    match p
    case Inactive => 0
    case Active => 1
    case Activating => 2
    case Unknown => 3
  }

  /** The label a choice editor shows for a constant: Java's default `toString()`, the constant's name. */
  function PowerStateText(p: PowerState): string
  {
    match p
    case Inactive => "Inactive"
    case Active => "Active"
    case Activating => "Activating"
    case Unknown => "Unknown"
  }

  /** What the dispatchers see of an Alternative Carrier record: its key, the
      optional power state, the optional carrier data reference and the list of
      auxiliary data references. `None` is Java's null. */
  datatype RecordState = RecordState(
    key: Option<string>,
    powerState: Option<PowerState>,
    dataReference: Option<string>,
    auxiliary: seq<string>)

  /** The record being edited; operations update its fields in place. */
  class Record {
    var key: Option<string>
    var powerState: Option<PowerState>
    var dataReference: Option<string>
    var auxiliary: seq<string>

    constructor (key: Option<string>, powerState: Option<PowerState>,
                 dataReference: Option<string>, auxiliary: seq<string>)
      ensures State() == RecordState(key, powerState, dataReference, auxiliary)
    {
      this.key := key;
      this.powerState := powerState;
      this.dataReference := dataReference;
      this.auxiliary := auxiliary;
    }

    function State(): RecordState
      reads this
    {
      RecordState(key, powerState, dataReference, auxiliary)
    }
  }

  /** The kinds of tree node. */
  datatype NodeKind =
    | RecordNode            // the record itself; its value is the record key
    | ParentPropertyNode    // an optional sub-record, shown as present or not present
    | PropertyNode          // a scalar field, told apart by its slot
    | PropertyListNode      // the container of a list-valued field
    | PropertyListItemNode  // one entry of a list-valued field

  /** What a dispatcher reads of a node: its kind and its position among its siblings. */
  datatype NodeView = NodeView(kind: NodeKind, parentIndex: int)

  /** A tree node. Its position among its siblings is not fixed: inserting or
      removing a sibling list entry renumbers it, so `parentIndex` is mutable. */
  class Node {
    const kind: NodeKind
    const record: Record
    var parentIndex: int

    constructor (kind: NodeKind, record: Record, parentIndex: int)
      ensures this.kind == kind && this.record == record && this.parentIndex == parentIndex
    {
      this.kind := kind;
      this.record := record;
      this.parentIndex := parentIndex;
    }

    function View(): NodeView
      reads this
    {
      NodeView(kind, parentIndex)
    }
  }

  /** The cell editor a dispatcher selects, as a kind tag plus the labels of a choice. */
  datatype CellEditor =
    | TextEditor
    | ChoiceEditor(labels: seq<string>)
    | PresentOrNotEditor   // the shared present / not present choice
    | NoEditor             // Java's null: no inline editor
}
