/** The field types that answers carry: over any run every node of the answers has the
    type of its field in the form, or that of a growing fieldset or one of its rows. */
module AnswerTypes {
  import opened FieldIdentity
  import opened Options
  import opened Texts
  import opened AnswerStore
  import opened GrowingFieldset
  import opened GrowingInvariant
  import opened FormPage
  import opened FormRuns

  /** The sets of a form, and the types of its fields outside them. */
  datatype Types = Types(sets: map<string, SetSpec>, plain: TextMap)

  ghost predicate TypesOk(types: Types) {
    forall fs | fs in types.sets :: types.sets[fs].fs == fs && SpecOk(types.sets[fs])
  }

  predicate RightType(types: Types, id: Id, fieldType: string) {
    match id
    case Plain(name) => name in types.plain ==> fieldType == types.plain[name]
    case Fieldset(_) => fieldType == "growingFieldset"
    case Row(_, _) => fieldType == "growingFieldsetChild"
    case Leaf(fs, _, name) => fs in types.sets ==>
      forall j | 0 <= j < |types.sets[fs].leaves| && types.sets[fs].leaves[j].name == name ::
        fieldType == types.sets[fs].leaves[j].fieldType
  }

  /** The node at an id has the type of its field. */
  predicate TypedAt(types: Types, es: seq<Entry>, id: Id) {
    NodeOf(es, id).Some? ==> RightType(types, id, NodeOf(es, id).value.fieldType)
  }

  ghost predicate Typed(types: Types, es: seq<Entry>) {
    Placed(es) && forall id :: TypedAt(types, es, id)
  }

  lemma WriteKeepsTyped(types: Types, es: seq<Entry>, u: Update)
    requires Typed(types, es) && (u.id.Plain? || u.id.Leaf?) && RightType(types, u.id, u.fieldType)
    ensures Typed(types, Write(es, u))
  {
    if u.id.Plain? { WritePlainMeans(es, u); } else { WriteInRowMeans(es, u); }
    forall id ensures TypedAt(types, Write(es, u), id) {
      assert TypedAt(types, es, id);
      WriteKeepsTypedAt(types, es, u, id);
    }
  }

  lemma WriteKeepsTypedAt(types: Types, es: seq<Entry>, u: Update, id: Id)
    requires Placed(es) && (u.id.Plain? || u.id.Leaf?) && RightType(types, u.id, u.fieldType) && TypedAt(types, es, id)
    ensures TypedAt(types, Write(es, u), id)
  {
    WriteKeepsTypes(es, u, id);
  }

  lemma DeleteKeepsTyped(types: Types, es: seq<Entry>, fs: string, index: nat)
    requires Typed(types, es)
    ensures Typed(types, DeleteRow(es, fs, Row(fs, index)))
  {
    DeleteRowMeans(es, fs, index);
    forall id ensures TypedAt(types, DeleteRow(es, fs, Row(fs, index)), id) {
      DeleteKeepsTypes(es, fs, index, id);
      assert TypedAt(types, es, id);
    }
  }

  /** The type that the form gives a field of a row is the right one. */
  lemma LeafType(types: Types, fs: string, index: nat, j: nat)
    requires TypesOk(types) && fs in types.sets && j < |types.sets[fs].leaves|
    ensures RightType(types, Leaf(fs, index, types.sets[fs].leaves[j].name), types.sets[fs].leaves[j].fieldType)
  {
  }

  lemma {:induction false} TouchKeepsTyped(types: Types, fs: string, row: RowState, es: seq<Entry>, edited: Id, j: nat)
    requires TypesOk(types) && fs in types.sets && RowOk(types.sets[fs], row) && j <= |types.sets[fs].leaves|
    requires Typed(types, es)
    ensures Typed(types, Touch(types.sets[fs], row, es, edited, j))
    decreases |types.sets[fs].leaves| - j
  {
    var sp := types.sets[fs];
    if j < |sp.leaves| {
      if !sp.leaves[j].isField || NodeId(sp, row, j) == edited {
        TouchKeepsTyped(types, fs, row, es, edited, j + 1);
      } else {
        var u := Update(NodeId(sp, row, j), TextOf(Read(es, NodeId(sp, row, j))), sp.leaves[j].fieldType);
        LeafType(types, fs, row.index, j);
        WriteKeepsTyped(types, es, u);
        TouchKeepsTyped(types, fs, row, Write(es, u), edited, j + 1);
      }
    }
  }

  lemma {:induction false} MovedTypes(types: Types, fs: string, row: RowState, es: seq<Entry>, j: nat)
    requires TypesOk(types) && fs in types.sets && |row.nodes| == |types.sets[fs].leaves| && j <= |types.sets[fs].leaves|
    ensures forall u | u in MovedAnswers(types.sets[fs], row, es, j) :: u.id.Leaf? && RightType(types, u.id, u.fieldType)
    decreases |types.sets[fs].leaves| - j
  {
    if j < |types.sets[fs].leaves| {
      MovedTypes(types, fs, row, es, j + 1);
      LeafType(types, fs, types.sets[fs].protoIndex, j);
    }
  }

  lemma {:induction false} WritesKeepTyped(types: Types, es: seq<Entry>, us: seq<Update>)
    requires Typed(types, es) && forall u | u in us :: u.id.Leaf? && RightType(types, u.id, u.fieldType)
    ensures Typed(types, WriteAll(es, us))
    decreases |us|
  {
    if us != [] {
      WriteKeepsTyped(types, es, us[0]);
      WritesKeepTyped(types, Write(es, us[0]), us[1..]);
    }
  }

  lemma RemovalKeepsTyped(types: Types, fs: string, rows: seq<RowState>, es: seq<Entry>, a: nat)
    requires TypesOk(types) && fs in types.sets && Typed(types, es)
    requires RowsOk(types.sets[fs], rows) && a < |rows| - 2
    ensures var left := RemoveRows(rows, rows[a].index); left != [] && |left[0].nodes| == |types.sets[fs].leaves|
    ensures Typed(types, RemovalAnswers(types.sets[fs], rows, es, a))
  {
    var sp := types.sets[fs];
    RemovedRowsShape(sp, rows, a);
    var first := RemoveRows(rows, rows[a].index)[0];
    DeleteKeepsTyped(types, es, fs, rows[a].index);
    FirstRowKeepsTyped(types, fs, first, DeleteRow(es, fs, Row(fs, rows[a].index)));
  }

  lemma FirstRowKeepsTyped(types: Types, fs: string, first: RowState, es: seq<Entry>)
    requires TypesOk(types) && fs in types.sets && Typed(types, es) && RowOk(types.sets[fs], first)
    ensures forall u | u in MovedAnswers(types.sets[fs], first, es, 0) :: u.id.Leaf?
    ensures Typed(types, FirstRowAnswers(types.sets[fs], first, es))
  {
    var sp := types.sets[fs];
    MovedTypes(types, fs, first, es, 0);
    DeleteKeepsTyped(types, es, fs, first.index);
    var cleared := DeleteRow(es, fs, Row(fs, first.index));
    WritesKeepTyped(types, cleared, MovedAnswers(sp, first, es, 0));
    TouchKeepsTyped(types, fs, AsPrototype(sp, first), WriteAll(cleared, MovedAnswers(sp, first, es, 0)), Fieldset(fs), 0);
  }

  lemma EditKeepsTyped(types: Types, fs: string, row: RowState, rowAfter: RowState, es: seq<Entry>, j: nat, value: string)
    requires TypesOk(types) && fs in types.sets && Typed(types, es)
    requires RowOk(types.sets[fs], row) && RowOk(types.sets[fs], rowAfter)
    requires j < |types.sets[fs].leaves| && types.sets[fs].leaves[j].isField
    ensures Typed(types, EditAnswers(types.sets[fs], row, rowAfter, es, j, value))
  {
    var sp := types.sets[fs];
    var u := Update(NodeId(sp, row, j), value, sp.leaves[j].fieldType);
    LeafType(types, fs, row.index, j);
    WriteKeepsTyped(types, es, u);
    TouchKeepsTyped(types, fs, rowAfter, Write(es, u), u.id, 0);
  }

  // ------------------------------------------------------------------------- runs

  /** The page sends an edit with its field's type. */
  predicate WellTyped(types: Types, ev: Event) {
    ev.EditPlain? ==> RightType(types, Plain(ev.name), ev.fieldType)
  }

  lemma StepKeepsTyped(spec: Specification, plain: TextMap, st: State, ev: Event)
    requires PageOk(spec, st) && Enabled(spec, st, ev)
    requires WellTyped(Types(spec.sets, plain), ev) && Typed(Types(spec.sets, plain), st.answers)
    ensures Typed(Types(spec.sets, plain), Step(spec, st, ev).answers)
  {
    var types := Types(spec.sets, plain);
    assert TypesOk(types);
    match ev
    case EditPlain(name, value, fieldType) =>
      PlainWriteKeepsReady(spec, st, ev);
      WriteKeepsTyped(types, st.answers, Update(Plain(name), value, fieldType));
      RulesKeepSets(spec, st.(answers := PlainWritten(st, ev)), spec.rules);
    case EditRow(fs, a, j, value) =>
      RowEditStep(spec, st, ev);
      var sp, rows := spec.sets[fs], st.sets[fs];
      ExpandedRows(sp, rows, a, j);
      EditKeepsTyped(types, fs, rows[a], Expand(sp, rows, NodeId(sp, rows[a], j))[a], st.answers, j, value);
    case RemoveRow(fs, a) =>
      RemovalStep(spec, st, ev);
      RemovalKeepsTyped(types, fs, st.sets[fs], st.answers, a);
  }

  lemma {:induction false} RunKeepsTyped(spec: Specification, plain: TextMap, st: State, events: seq<Event>)
    requires PageOk(spec, st) && Possible(spec, st, events)
    requires Typed(Types(spec.sets, plain), st.answers) && forall ev | ev in events :: WellTyped(Types(spec.sets, plain), ev)
    ensures Typed(Types(spec.sets, plain), Run(spec, st, events).answers)
    decreases |events|
  {
    if events != [] {
      StepKeepsTyped(spec, plain, st, events[0]);
      StepBreaksExactly(spec, st, events[0]);
      RunKeepsTyped(spec, plain, Step(spec, st, events[0]), events[1..]);
    }
  }

  /** After any run, growing and removing rows included, every node of the answers has the
      type of its field. */
  lemma EveryRunKeepsTypes(spec: Specification, plain: TextMap, saved: seq<Entry>, events: seq<Event>)
    requires SpecificationOk(spec) && Loadable(spec, saved) && Possible(spec, Load(spec, saved), events)
    requires Typed(Types(spec.sets, plain), saved) && forall ev | ev in events :: WellTyped(Types(spec.sets, plain), ev)
    ensures Typed(Types(spec.sets, plain), Run(spec, Load(spec, saved), events).answers)
  {
    assert Load(spec, saved).answers == saved;
    RunKeepsTyped(spec, plain, Load(spec, saved), events);
  }
}
