/** Growing fieldsets: rows that are rendered from saved answers, added while the
    user types, removed and renumbered. */
module GrowingFieldset {
  import opened FieldIdentity
  import opened AnswerStore
  import opened Options

  /** A field of the row prototype; only form fields (isField) ever get answers. */
  datatype LeafSpec = LeafSpec(name: string, isField: bool, required: bool, fieldType: string)

  /** A growing fieldset of the form specification, with its row prototype. */
  datatype SetSpec = SetSpec(fs: string, protoIndex: nat, rowRequired: bool, leaves: seq<LeafSpec>)

  /** A field of a row on the form; `index` is the row index inside the field's id. */
  datatype Node = Node(index: nat, required: bool, disabled: bool)

  /** A row on the form; nodes[j] is the row's copy of the prototype's leaves[j]. */
  datatype RowState = RowState(index: nat, required: bool, disabled: bool, nodes: seq<Node>)

  predicate SpecOk(sp: SetSpec) {
    forall i, j | 0 <= i < j < |sp.leaves| :: sp.leaves[i].name != sp.leaves[j].name
  }

  function NodeId(sp: SetSpec, row: RowState, j: nat): Id
    requires j < |sp.leaves| && |row.nodes| == |sp.leaves|
  {
    Leaf(sp.fs, row.nodes[j].index, sp.leaves[j].name)
  }

  predicate Contains(sp: SetSpec, row: RowState, id: Id)
    requires |row.nodes| == |sp.leaves|
  {
    id == Row(sp.fs, row.index) || exists j :: 0 <= j < |sp.leaves| && NodeId(sp, row, j) == id
  }

  // -------------------------------------------------------------- making rows

  /** The row that createNewChild makes after a row with index `last`. */
  function NewRow(sp: SetSpec, last: nat, enable: bool): RowState {
    RowState(last + 1, false, !enable, seq(|sp.leaves|, _ => Node(last + 1, false, !enable)))
  }

  function PrototypeRow(sp: SetSpec): RowState {
    RowState(sp.protoIndex, sp.rowRequired, false,
             seq(|sp.leaves|, j requires 0 <= j < |sp.leaves| => Node(sp.protoIndex, sp.leaves[j].required, false)))
  }

  /** The index in the key of the last entry of that name; the prototype's without one. */
  function RenderedIndex(es: seq<Entry>, name: string, protoIndex: nat): nat {
    if es == [] then protoIndex
    else
      var last := es[|es| - 1];
      if last.key.Leaf? && last.key.name == name then last.key.index
      else RenderedIndex(es[..|es| - 1], name, protoIndex)
  }

  function EntryRow(sp: SetSpec, e: Entry): RowState
    requires e.key.Row?
  {
    RowState(e.key.index, sp.rowRequired, false,
             seq(|sp.leaves|, j requires 0 <= j < |sp.leaves| =>
               Node(RenderedIndex(Children(e.value), sp.leaves[j].name, sp.protoIndex), sp.leaves[j].required, false)))
  }

  ghost predicate RowKeys(es: seq<Entry>) {
    forall e | e in es :: e.key.Row?
  }

  function InsertEntry(e: Entry, es: seq<Entry>): (r: seq<Entry>)
    requires e.key.Row? && RowKeys(es)
    ensures RowKeys(r) && |r| == |es| + 1
  {
    if es == [] || e.key.index <= es[0].key.index then [e] + es
    else [es[0]] + InsertEntry(e, es[1..])
  }

  /** The rows of a set in the order in which readValue returns them. */
  function SortEntries(es: seq<Entry>): (r: seq<Entry>)
    requires RowKeys(es)
    ensures RowKeys(r) && |r| == |es|
  {
    if es == [] then [] else InsertEntry(es[0], SortEntries(es[1..]))
  }

  function EntryRows(sp: SetSpec, es: seq<Entry>): (r: seq<RowState>)
    requires RowKeys(es)
    ensures |r| == |es|
  {
    if es == [] then [] else [EntryRow(sp, es[0])] + EntryRows(sp, es[1..])
  }

  predicate IsEmptyValue(v: Value) {
    match v
    case Flat(text) => text == ""
    case List(kids) => kids == []
  }

  predicate HaveAnswers(sp: SetSpec, rows: seq<RowState>, setValue: seq<Entry>)
    requires rows != []
  {
    |rows| > 1 ||
    exists e | e in Children(Read(setValue, Row(sp.fs, rows[0].index))) :: !IsEmptyValue(e.value)
  }

  /** An enabled placeholder after answered rows, and a disabled one in any case. */
  function WithPlaceholders(sp: SetSpec, rows: seq<RowState>, answered: bool): seq<RowState>
    requires rows != []
  {
    var last := rows[|rows| - 1].index;
    if answered
    then rows + [NewRow(sp, last, true), NewRow(sp, last + 1, false)]
    else rows + [NewRow(sp, last, false)]
  }

  /** The rows without placeholders. */
  function AnsweredRows(sp: SetSpec, setValue: seq<Entry>): (r: seq<RowState>)
    requires RowKeys(setValue)
    ensures r != []
  {
    if setValue == [] then [PrototypeRow(sp)] else EntryRows(sp, SortEntries(setValue))
  }

  /** The edit-mode render of a set: its rows are made anew from the answers, if there are
      any, and placeholders are added to the rows in any case. */
  function Rendered(sp: SetSpec, rows: seq<RowState>, setValue: seq<Entry>): seq<RowState>
    requires rows != [] && RowKeys(setValue)
  {
    var answered := if setValue == [] then rows else AnsweredRows(sp, setValue);
    WithPlaceholders(sp, answered, HaveAnswers(sp, answered, setValue))
  }

  /** The render of a set that has just come from the specification. */
  function InitialRows(sp: SetSpec, setValue: seq<Entry>): seq<RowState>
    requires RowKeys(setValue)
  {
    Rendered(sp, [PrototypeRow(sp)], setValue)
  }

  // ---------------------------------------------------------- editing the rows

  /** Every node that the prototype requires becomes required. */
  function RequireRow(sp: SetSpec, row: RowState): RowState
    requires |row.nodes| == |sp.leaves|
  {
    row.(required := row.required || sp.rowRequired,
         nodes := seq(|row.nodes|, j requires 0 <= j < |row.nodes| =>
           row.nodes[j].(required := row.nodes[j].required || sp.leaves[j].required)))
  }

  function EnableRow(row: RowState): RowState {
    row.(disabled := false,
         nodes := seq(|row.nodes|, j requires 0 <= j < |row.nodes| => row.nodes[j].(disabled := false)))
  }

  /** An edit in the last but one row makes that row required, enables the last row
      and appends a new disabled one. */
  function Expand(sp: SetSpec, rows: seq<RowState>, id: Id): seq<RowState>
    requires |rows| >= 2 && forall r | r in rows :: |r.nodes| == |sp.leaves|
  {
    var n := |rows|;
    if Contains(sp, rows[n - 2], id)
    then rows[..n - 2] + [RequireRow(sp, rows[n - 2]), EnableRow(rows[n - 1]), NewRow(sp, rows[n - 1].index, false)]
    else rows
  }

  function TextOf(v: Value): string {
    match v
    case Flat(text) => text
    case List(_) => ""
  }

  /** Validating a field of a row writes back what it reads, from field j on. */
  function Touch(sp: SetSpec, row: RowState, es: seq<Entry>, edited: Id, j: nat): seq<Entry>
    requires |row.nodes| == |sp.leaves| && j <= |sp.leaves|
    decreases |sp.leaves| - j
  {
    if j == |sp.leaves| then es
    else if !sp.leaves[j].isField || NodeId(sp, row, j) == edited then Touch(sp, row, es, edited, j + 1)
    else
      var id := NodeId(sp, row, j);
      var u := Update(id, TextOf(Read(es, id)), sp.leaves[j].fieldType);
      Touch(sp, row, WriteInRow(es, sp.fs, Row(sp.fs, row.index), u), edited, j + 1)
  }

  function RemoveRows(rows: seq<RowState>, index: nat): seq<RowState> {
    if rows == [] then []
    else if rows[0].index == index then RemoveRows(rows[1..], index)
    else [rows[0]] + RemoveRows(rows[1..], index)
  }

  function InsertRow(row: RowState, rows: seq<RowState>): seq<RowState> {
    if rows == [] || row.index <= rows[0].index then [row] + rows
    else [rows[0]] + InsertRow(row, rows[1..])
  }

  function SortRows(rows: seq<RowState>): seq<RowState> {
    if rows == [] then [] else InsertRow(rows[0], SortRows(rows[1..]))
  }

  /** The row with the prototype's ids and required flags. */
  function AsPrototype(sp: SetSpec, row: RowState): RowState
    requires |row.nodes| == |sp.leaves|
  {
    row.(index := sp.protoIndex, required := sp.rowRequired,
         nodes := seq(|row.nodes|, j requires 0 <= j < |row.nodes| =>
           row.nodes[j].(index := sp.protoIndex, required := sp.leaves[j].required)))
  }

  /** What the fields of a row read, addressed to the prototype's ids, from field j on. */
  function MovedAnswers(sp: SetSpec, row: RowState, es: seq<Entry>, j: nat): seq<Update>
    requires |row.nodes| == |sp.leaves| && j <= |sp.leaves|
    decreases |sp.leaves| - j
  {
    if j == |sp.leaves| then []
    else if !sp.leaves[j].isField then MovedAnswers(sp, row, es, j + 1)
    else
      [Update(Leaf(sp.fs, sp.protoIndex, sp.leaves[j].name), TextOf(Read(es, NodeId(sp, row, j))), sp.leaves[j].fieldType)]
      + MovedAnswers(sp, row, es, j + 1)
  }

  function WriteAll(es: seq<Entry>, us: seq<Update>): seq<Entry>
    requires forall u | u in us :: u.id.Plain? || u.id.Leaf?
    decreases us
  {
    if us == [] then es else WriteAll(Write(es, us[0]), us[1..])
  }
}
