/** Runs of a form on the page: rendered from saved answers, then edited field by field and
    row by row, with the rules applied at every edit. */
module FormRuns {
  import opened FieldIdentity
  import opened Options
  import opened Texts
  import FormTree
  import SiblingOrder
  import Rules = FormRules
  import Laws = RuleLaws
  import opened AnswerStore
  import opened GrowingFieldset
  import opened GrowingInvariant
  import opened FormPage
  import opened RenderedAgain

  datatype Event =
    | EditPlain(name: string, value: string, fieldType: string)
    | EditRow(fs: string, row: nat, field: nat, value: string)
    | RemoveRow(fs: string, row: nat)

  /** A fieldset that was rendered again without having answers. */
  ghost predicate Stranded(st: State, fs: string) {
    fs in st.sets && RowsOf(st.answers, fs) == [] && Stuck(st.sets[fs])
  }

  /** A growing fieldset on the page keeps the growing-row invariant or was rendered again
      without having answers. */
  ghost predicate SetsOk(spec: Specification, st: State) {
    forall fs {:trigger SetOk(spec, st, fs)} | fs in st.sets :: SetOk(spec, st, fs) || Stranded(st, fs)
  }

  /** What holds after every event; the tree is what the answers make of the specification. */
  ghost predicate PageOk(spec: Specification, st: State) {
    && SpecificationOk(spec) && SetsReady(spec, st) && Loadable(spec, st.answers) && Settled(spec, st)
    && SetsOk(spec, st)
  }

  /** The growing fieldsets on the page that break the growing-row invariant. */
  ghost function Broken(spec: Specification, st: State): set<string> {
    set fs | fs in st.sets && !SetOk(spec, st, fs)
  }

  /** The invariant: no fieldset is broken. */
  ghost predicate StateOk(spec: Specification, st: State) {
    PageOk(spec, st) && Broken(spec, st) == {}
  }

  lemma BrokenAreSpoiled(spec: Specification, st: State)
    requires PageOk(spec, st)
    ensures SpoiledExactly(spec, st, Broken(spec, st)) && Broken(spec, st) <= SetsIn(spec, st.form)
  {
  }

  lemma SpoiledAreBroken(spec: Specification, st: State, spoiled: set<string>)
    requires SpecificationOk(spec) && Settled(spec, st) && SpoiledExactly(spec, st, spoiled)
    ensures PageOk(spec, st) && Broken(spec, st) == spoiled
  {
    forall fs | fs in st.sets ensures SetOk(spec, st, fs) || Stranded(st, fs) {}
    forall fs ensures fs in Broken(spec, st) <==> fs in spoiled {}
  }

  /** The edit-mode render of one fieldset. */
  ghost function LoadSet(sp: SetSpec, saved: seq<Entry>): (rows: seq<RowState>)
    requires Placed(saved) && Renderable(sp, SetView(saved, sp.fs))
    ensures Inv(sp, rows, SetView(saved, sp.fs))
  {
    InitialRenderEstablishes(sp, saved);
    InitialRows(sp, RowsOf(saved, sp.fs))
  }

  /** The tree with the rules applied, and the edit-mode render of its fieldsets. With no
      field a target of two rules, the rules only take fields out of the full tree. */
  ghost function Load(spec: Specification, saved: seq<Entry>): (st: State)
    requires SpecificationOk(spec) && Loadable(spec, saved)
    ensures StateOk(spec, st)
  {
    RulesAreTargeted(spec);
    var form := Rules.ApplyRules(spec.content, spec.content, spec.rules, PlainView(saved));
    var st := State(form, map fs | fs in SetsIn(spec, form) :: LoadSet(spec.sets[fs], saved), saved);
    LoadedIsOk(spec, st);
    st
  }

  lemma LoadedIsOk(spec: Specification, st: State)
    requires SpecificationOk(spec) && Loadable(spec, st.answers) && Rules.RulesOk(spec.content, spec.rules)
    requires st.form == Rules.ApplyRules(spec.content, spec.content, spec.rules, PlainView(st.answers))
    requires st.sets.Keys == SetsIn(spec, st.form)
    requires forall fs | fs in st.sets :: st.sets[fs] == LoadSet(spec.sets[fs], st.answers)
    ensures StateOk(spec, st)
  {
    LoadedIsSettled(spec, st);
    LoadedSets(spec, st);
  }

  lemma LoadedIsSettled(spec: Specification, st: State)
    requires SpecificationOk(spec) && Rules.RulesOk(spec.content, spec.rules)
    requires st.form == Rules.ApplyRules(spec.content, spec.content, spec.rules, PlainView(st.answers))
    ensures Settled(spec, st)
  {
    RulesAreTargeted(spec);
    Laws.PrunedNothing(spec.content, false);
    Laws.RulesForgetThePast(spec.content, Targets(spec.rules), {}, spec.content, spec.rules, PlainView(st.answers), false);
  }

  lemma LoadedSets(spec: Specification, st: State)
    requires SetsSpecified(spec) && Loadable(spec, st.answers) && st.sets.Keys <= spec.sets.Keys
    requires forall fs | fs in st.sets :: st.sets[fs] == LoadSet(spec.sets[fs], st.answers)
    ensures forall fs | fs in st.sets :: SetOk(spec, st, fs) && Ready(st.sets[fs])
  {
    forall fs | fs in st.sets ensures SetOk(spec, st, fs) && Ready(st.sets[fs]) {
      assert Inv(spec.sets[fs], st.sets[fs], SetView(st.answers, fs));
    }
  }

  /** What the page lets the user do: edit an enabled form field, or remove a row that
      is neither disabled nor followed by the disabled last row. Rows of a broken fieldset
      are not followed. */
  ghost predicate Enabled(spec: Specification, st: State, ev: Event)
    requires PageOk(spec, st)
  {
    match ev
    case EditPlain(_, _, _) => true
    case EditRow(fs, a, j, _) =>
      fs in st.sets && SetOk(spec, st, fs) && a < |st.sets[fs]| && !st.sets[fs][a].disabled && j < |spec.sets[fs].leaves| && spec.sets[fs].leaves[j].isField
    case RemoveRow(fs, a) =>
      fs in st.sets && SetOk(spec, st, fs) && var rows := st.sets[fs];
      a < |rows| && !rows[a].disabled && !(a == |rows| - 2 && rows[a + 1].disabled)
  }

  // ------------------------------------------------------------------- one answer

  /** The answers after a field outside the growing fieldsets was written. */
  function PlainWritten(st: State, ev: Event): seq<Entry>
    requires ev.EditPlain?
  {
    Write(st.answers, Update(Plain(ev.name), ev.value, ev.fieldType))
  }

  lemma PlainWriteKeepsReady(spec: Specification, st: State, ev: Event)
    requires PageOk(spec, st) && ev.EditPlain?
    ensures Rules.RulesOk(spec.content, spec.rules)
    ensures var written := st.(answers := PlainWritten(st, ev));
      && SetsReady(spec, written) && Loadable(spec, written.answers)
      && SpoiledExactly(spec, written, Broken(spec, st))
  {
    WritePlainMeans(st.answers, Update(Plain(ev.name), ev.value, ev.fieldType));
    RulesAreTargeted(spec);
    BrokenAreSpoiled(spec, st);
    SameSets(spec, st, PlainWritten(st, ev));
  }

  lemma {:induction false} ViewOfRows(rows: seq<Entry>, fs: string)
    requires RowsPlaced(fs, rows)
    ensures rows == [] <==> RowView(rows) == map[]
  {
    if rows != [] {
      HeadAndTail(rows);
      assert rows[0] in rows;
      assert rows[0].key.index in RowView(rows);
    }
  }

  /** Whether a fieldset has answers is seen from its view. */
  lemma UnansweredIff(answers: seq<Entry>, fs: string)
    requires Placed(answers)
    ensures RowsOf(answers, fs) == [] <==> SetView(answers, fs) == map[]
  {
    RowsOfPlaced(answers, fs);
    ViewOfRows(RowsOf(answers, fs), fs);
  }

  /** Answers in which every fieldset is the same break the same ones. */
  lemma SameSets(spec: Specification, st: State, answers: seq<Entry>)
    requires SpoiledExactly(spec, st, Broken(spec, st)) && Placed(answers)
    requires forall fs :: SetView(answers, fs) == SetView(st.answers, fs)
    ensures SpoiledExactly(spec, st.(answers := answers), Broken(spec, st))
  {
    var st2 := st.(answers := answers);
    forall fs | fs in Broken(spec, st) ensures RowsOf(answers, fs) == [] {
      UnansweredIff(answers, fs);
      UnansweredIff(st.answers, fs);
    }
    forall fs | fs in st.sets ensures SetOk(spec, st2, fs) <==> fs !in Broken(spec, st) {
      assert SetView(answers, fs) == SetView(st.answers, fs);
    }
  }

  /** The answers after field j in row a of a fieldset was written. */
  ghost function RowWritten(spec: Specification, st: State, ev: Event): seq<Entry>
    requires PageOk(spec, st) && ev.EditRow? && Enabled(spec, st, ev)
  {
    assert SetOk(spec, st, ev.fs);
    var sp, row := spec.sets[ev.fs], st.sets[ev.fs][ev.row];
    WriteInRow(st.answers, ev.fs, Row(ev.fs, row.index), Update(NodeId(sp, row, ev.field), ev.value, sp.leaves[ev.field].fieldType))
  }

  /** No rule is triggered by a field in a row: applying the rules then does nothing. */
  lemma RulesRestAtRowEdits(spec: Specification, st: State, ev: Event)
    requires PageOk(spec, st) && ev.EditRow? && Enabled(spec, st, ev)
    ensures Rules.RulesOk(spec.content, spec.rules)
    ensures var written := st.(answers := RowWritten(spec, st, ev));
      SetsReady(spec, written) && ApplyRules(spec, written, spec.rules) == written
  {
    assert SetOk(spec, st, ev.fs);
    var sp, row := spec.sets[ev.fs], st.sets[ev.fs][ev.row];
    var u := Update(NodeId(sp, row, ev.field), ev.value, sp.leaves[ev.field].fieldType);
    WriteInRowMeans(st.answers, u);
    assert Write(st.answers, u) == RowWritten(spec, st, ev);
    RulesAreAtRest(spec, st.(answers := RowWritten(spec, st, ev)), 0);
    assert spec.rules[0..] == spec.rules;
  }

  // ----------------------------------------------------------------------- one step

  /** onUpdateField and onRemoveField, as far as tree, rows and answers go. */
  ghost function Step(spec: Specification, st: State, ev: Event): State
    requires PageOk(spec, st) && Enabled(spec, st, ev)
  {
    match ev
    case EditPlain(name, value, fieldType) =>
      PlainWriteKeepsReady(spec, st, ev);
      ApplyRules(spec, st.(answers := PlainWritten(st, ev)), spec.rules)
    case EditRow(fs, a, j, value) =>
      assert SetOk(spec, st, fs);
      RulesRestAtRowEdits(spec, st, ev);
      var ruled := ApplyRules(spec, st.(answers := RowWritten(spec, st, ev)), spec.rules);
      var sp, rows := spec.sets[fs], ruled.sets[fs];
      ExpandedRows(sp, rows, a, j);
      var id := NodeId(sp, rows[a], j);
      var after := Expand(sp, rows, id);
      State(ruled.form, ruled.sets[fs := after], Touch(sp, after[a], ruled.answers, id, 0))
    case RemoveRow(fs, a) =>
      assert SetOk(spec, st, fs);
      var sp, rows := spec.sets[fs], st.sets[fs];
      RowsAfterRemoval(sp, rows, a);
      State(st.form, st.sets[fs := FirstRowRows(sp, RemoveRows(rows, rows[a].index))], RemovalAnswers(sp, rows, st.answers, a))
  }

  /** The fieldsets that are broken after the event. */
  ghost function BrokenNext(spec: Specification, st: State, ev: Event, broken: set<string>): set<string>
    requires SpecificationOk(spec)
  {
    if ev.EditPlain? then BrokenAfter(spec, HiddenNow(spec, st.answers), PlainWritten(st, ev), broken) else broken
  }

  /** No field comes in beside a fieldset that has no answers and was on the page already,
      or was brought in by an earlier one. */
  ghost predicate Harmless(spec: Specification, st: State, ev: Event)
    requires SpecificationOk(spec)
  {
    ev.EditPlain? ==> BrokenAfter(spec, HiddenNow(spec, st.answers), PlainWritten(st, ev), {}) == {}
  }

  /** The answers of one fieldset changed, and of nothing else. */
  ghost predicate SameButFor(answers: seq<Entry>, after: seq<Entry>, fs: string)
    requires Placed(answers) && Placed(after)
  {
    && PlainView(after) == PlainView(answers)
    && forall other | other != fs :: SetView(after, other) == SetView(answers, other)
  }

  lemma StillLoadable(spec: Specification, answers: seq<Entry>, after: seq<Entry>, fs: string)
    requires Loadable(spec, answers) && Placed(after) && SameButFor(answers, after, fs)
    requires fs in spec.sets && spec.sets[fs].fs == fs
    requires exists rows :: Inv(spec.sets[fs], rows, SetView(after, fs))
    ensures Loadable(spec, after)
  {
    var rows :| Inv(spec.sets[fs], rows, SetView(after, fs));
    InvIsRenderable(spec.sets[fs], rows, SetView(after, fs));
    forall other | other in spec.sets ensures Renderable(spec.sets[other], SetView(after, other)) {
      if other != fs { assert SetView(after, other) == SetView(answers, other); }
    }
  }

  lemma OkIsReady(spec: Specification, st: State, fs: string)
    requires SetOk(spec, st, fs)
    ensures Ready(st.sets[fs])
  {
  }

  lemma StillSettled(spec: Specification, st: State, st2: State)
    requires SpecificationOk(spec) && Settled(spec, st) && st2.form == st.form && Placed(st.answers) && Placed(st2.answers)
    requires PlainView(st2.answers) == PlainView(st.answers)
    ensures Settled(spec, st2)
  {
  }

  /** One fieldset on the page got new rows and answers that keep the growing-row invariant. */
  lemma OneSetChanged(spec: Specification, st: State, fs: string, rows: seq<RowState>, answers: seq<Entry>)
    requires PageOk(spec, st) && SetOk(spec, st, fs)
    requires Placed(answers) && SameButFor(st.answers, answers, fs) && Inv(spec.sets[fs], rows, SetView(answers, fs))
    ensures SamelyBroken(spec, st, State(st.form, st.sets[fs := rows], answers))
  {
    TheRestStays(spec, st, fs, rows, answers);
    OthersStillOk(spec, st, State(st.form, st.sets[fs := rows], answers), fs);
  }

  /** The page is in order, and the same fieldsets are broken. */
  ghost predicate SamelyBroken(spec: Specification, st: State, after: State) {
    PageOk(spec, after) && Broken(spec, after) == Broken(spec, st)
  }

  lemma TheRestStays(spec: Specification, st: State, fs: string, rows: seq<RowState>, answers: seq<Entry>)
    requires PageOk(spec, st) && fs in st.sets && fs in spec.sets
    requires Placed(answers) && SameButFor(st.answers, answers, fs) && Inv(spec.sets[fs], rows, SetView(answers, fs))
    ensures var st2 := State(st.form, st.sets[fs := rows], answers);
      Loadable(spec, answers) && Settled(spec, st2) && SetOk(spec, st2, fs) && st2.sets.Keys == st.sets.Keys
  {
    StillLoadable(spec, st.answers, answers, fs);
    StillSettled(spec, st, State(st.form, st.sets[fs := rows], answers));
  }

  lemma OthersStillOk(spec: Specification, st: State, st2: State, fs: string)
    requires SetsOk(spec, st)
    requires fs in st.sets && SetOk(spec, st2, fs) && st2.sets.Keys == st.sets.Keys
    requires forall other | other in st2.sets && other != fs :: st2.sets[other] == st.sets[other]
    requires Placed(st.answers) && Placed(st2.answers) && SameButFor(st.answers, st2.answers, fs)
    requires SetsReady(spec, st) && st2.form == st.form && SetOk(spec, st, fs)
    ensures SetsReady(spec, st2)
    ensures SetsOk(spec, st2)
    ensures Broken(spec, st2) == Broken(spec, st)
  {
    forall other | other in st2.sets && other != fs
      ensures (SetOk(spec, st2, other) <==> SetOk(spec, st, other)) && (SetOk(spec, st2, other) || Stranded(st2, other))
    {
      OtherStays(spec, st, st2, other);
    }
    OkIsReady(spec, st2, fs);
    forall other ensures other in Broken(spec, st2) <==> other in Broken(spec, st) {}
  }

  lemma OtherStays(spec: Specification, st: State, st2: State, other: string)
    requires other in st.sets && other in st2.sets && st2.sets[other] == st.sets[other]
    requires Placed(st.answers) && Placed(st2.answers) && SetView(st2.answers, other) == SetView(st.answers, other)
    ensures SetOk(spec, st2, other) <==> SetOk(spec, st, other)
    ensures Stranded(st, other) ==> Stranded(st2, other)
  {
    UnansweredIff(st.answers, other);
    UnansweredIff(st2.answers, other);
  }

  lemma EditRowOk(spec: Specification, st: State, ev: Event)
    requires PageOk(spec, st) && ev.EditRow? && Enabled(spec, st, ev)
    ensures SamelyBroken(spec, st, Step(spec, st, ev))
  {
    var fs, a, j := ev.fs, ev.row, ev.field;
    EditStarts(spec, st, fs, a, j, ev.value);
    EditedSetOk(spec.sets[fs], st.sets[fs], st.answers, a, j, ev.value);
    RowEditStep(spec, st, ev);
    var sp, row := spec.sets[fs], st.sets[fs][a];
    var after := Expand(sp, st.sets[fs], NodeId(sp, row, j));
    OneSetChanged(spec, st, fs, after, EditAnswers(sp, row, after[a], st.answers, j, ev.value));
  }

  lemma EditStarts(spec: Specification, st: State, fs: string, a: nat, j: nat, value: string)
    requires PageOk(spec, st) && Enabled(spec, st, EditRow(fs, a, j, value))
    ensures fs in st.sets && fs in spec.sets && spec.sets[fs].fs == fs && Usable(spec.sets[fs])
    ensures Placed(st.answers) && Inv(spec.sets[fs], st.sets[fs], SetView(st.answers, fs))
    ensures a < |st.sets[fs]| - 1 && j < |spec.sets[fs].leaves| && spec.sets[fs].leaves[j].isField
  {
    assert SetOk(spec, st, fs);
  }

  /** As the rules are at rest, an edit of a row changes that fieldset alone. */
  lemma RowEditStep(spec: Specification, st: State, ev: Event)
    requires PageOk(spec, st) && ev.EditRow? && Enabled(spec, st, ev)
    ensures ev.fs in spec.sets && ev.fs in st.sets && ev.row < |st.sets[ev.fs]| - 1 && ev.field < |spec.sets[ev.fs].leaves|
    ensures var sp, rows := spec.sets[ev.fs], st.sets[ev.fs];
      && RowsOk(sp, rows) && SpecOk(sp) && sp.leaves[ev.field].isField
      && var after := Expand(sp, rows, NodeId(sp, rows[ev.row], ev.field));
      && ev.row < |after| && |after[ev.row].nodes| == |sp.leaves|
      && Step(spec, st, ev) ==
           State(st.form, st.sets[ev.fs := after], EditAnswers(sp, rows[ev.row], after[ev.row], st.answers, ev.field, ev.value))
  {
    EditStarts(spec, st, ev.fs, ev.row, ev.field, ev.value);
    RulesRestAtRowEdits(spec, st, ev);
    ExpandedRows(spec.sets[ev.fs], st.sets[ev.fs], ev.row, ev.field);
  }

  lemma EditedSetOk(sp: SetSpec, rows: seq<RowState>, es: seq<Entry>, a: nat, j: nat, value: string)
    requires SpecOk(sp) && Placed(es) && Inv(sp, rows, SetView(es, sp.fs))
    requires a < |rows| - 1 && j < |sp.leaves| && sp.leaves[j].isField
    ensures var after := Expand(sp, rows, NodeId(sp, rows[a], j));
      && a < |after| && RowsOk(sp, after)
      && var es2 := EditAnswers(sp, rows[a], after[a], es, j, value);
      && Placed(es2) && Inv(sp, after, SetView(es2, sp.fs)) && PlainView(es2) == PlainView(es)
      && forall other | other != sp.fs :: SetView(es2, other) == SetView(es, other)
  {
    EditKeepsInvariant(sp, rows, es, a, j, value);
    ExpandedRows(sp, rows, a, j);
    var after := Expand(sp, rows, NodeId(sp, rows[a], j));
    var values := EditAnswersMeans(sp, rows[a], after[a], es, j, value);
  }

  lemma RemovedSetOk(sp: SetSpec, rows: seq<RowState>, es: seq<Entry>, a: nat)
    requires Usable(sp) && Placed(es) && Inv(sp, rows, SetView(es, sp.fs)) && a < |rows| - 2
    ensures RemoveRows(rows, rows[a].index) != [] && |RemoveRows(rows, rows[a].index)[0].nodes| == |sp.leaves|
    ensures var es2 := RemovalAnswers(sp, rows, es, a);
      && Placed(es2) && Inv(sp, FirstRowRows(sp, RemoveRows(rows, rows[a].index)), SetView(es2, sp.fs))
      && PlainView(es2) == PlainView(es)
      && forall other | other != sp.fs :: SetView(es2, other) == SetView(es, other)
  {
    RowsAfterRemoval(sp, rows, a);
    RemovalKeepsInvariant(sp, rows, es, a);
    var first := RemovalViews(sp, rows, es, a);
  }

  lemma RemoveRowOk(spec: Specification, st: State, ev: Event)
    requires PageOk(spec, st) && ev.RemoveRow? && Enabled(spec, st, ev)
    ensures SamelyBroken(spec, st, Step(spec, st, ev))
  {
    var fs, a := ev.fs, ev.row;
    RemovalStarts(spec, st, fs, a);
    RemovedSetOk(spec.sets[fs], st.sets[fs], st.answers, a);
    RemovalStep(spec, st, ev);
    var rows := FirstRowRows(spec.sets[fs], RemoveRows(st.sets[fs], st.sets[fs][a].index));
    OneSetChanged(spec, st, fs, rows, RemovalAnswers(spec.sets[fs], st.sets[fs], st.answers, a));
  }

  lemma RemovalStep(spec: Specification, st: State, ev: Event)
    requires PageOk(spec, st) && ev.RemoveRow? && Enabled(spec, st, ev)
    ensures ev.fs in spec.sets && ev.fs in st.sets && ev.row < |st.sets[ev.fs]| - 2
    ensures var sp, rows := spec.sets[ev.fs], st.sets[ev.fs];
      && RowsOk(sp, rows) && SpecOk(sp)
      && var left := RemoveRows(rows, rows[ev.row].index);
      && left != [] && |left[0].nodes| == |sp.leaves|
      && Step(spec, st, ev) == State(st.form, st.sets[ev.fs := FirstRowRows(sp, left)], RemovalAnswers(sp, rows, st.answers, ev.row))
  {
    RemovalStarts(spec, st, ev.fs, ev.row);
    RowsAfterRemoval(spec.sets[ev.fs], st.sets[ev.fs], ev.row);
  }

  lemma RemovalStarts(spec: Specification, st: State, fs: string, a: nat)
    requires PageOk(spec, st) && Enabled(spec, st, RemoveRow(fs, a))
    ensures fs in st.sets && fs in spec.sets && spec.sets[fs].fs == fs && Usable(spec.sets[fs])
    ensures Placed(st.answers) && Inv(spec.sets[fs], st.sets[fs], SetView(st.answers, fs)) && a < |st.sets[fs]| - 2
  {
    assert SetOk(spec, st, fs);
  }

  lemma EditPlainBreaks(spec: Specification, st: State, ev: Event)
    requires PageOk(spec, st) && ev.EditPlain?
    ensures PageOk(spec, Step(spec, st, ev)) && Broken(spec, Step(spec, st, ev)) == BrokenNext(spec, st, ev, Broken(spec, st))
  {
    PlainWriteKeepsReady(spec, st, ev);
    BrokenAreSpoiled(spec, st);
    var written := st.(answers := PlainWritten(st, ev));
    RulesSpoil(spec, written, spec.rules, Broken(spec, st));
    RulesSettle(spec, written, st.answers);
    RulesBreakExactly(spec, st.form, written.answers, HiddenNow(spec, st.answers), Broken(spec, st));
    SpoiledAreBroken(spec, Step(spec, st, ev), BrokenNext(spec, st, ev, Broken(spec, st)));
  }

  /** Whatever is broken already, an event breaks exactly the fieldsets without answers that
      a field comes in beside; and it mends those only that leave the page. */
  lemma StepBreaksExactly(spec: Specification, st: State, ev: Event)
    requires PageOk(spec, st) && Enabled(spec, st, ev)
    ensures PageOk(spec, Step(spec, st, ev)) && Broken(spec, Step(spec, st, ev)) == BrokenNext(spec, st, ev, Broken(spec, st))
  {
    match ev
    case EditPlain(_, _, _) => EditPlainBreaks(spec, st, ev);
    case EditRow(_, _, _, _) => EditRowOk(spec, st, ev);
    case RemoveRow(_, _) => RemoveRowOk(spec, st, ev);
  }

  /** An event keeps the invariant if and only if it is harmless. */
  lemma StepOkIff(spec: Specification, st: State, ev: Event)
    requires StateOk(spec, st) && Enabled(spec, st, ev)
    ensures StateOk(spec, Step(spec, st, ev)) <==> Harmless(spec, st, ev)
  {
    StepBreaksExactly(spec, st, ev);
  }

  /** A broken fieldset is mended by an event exactly when it leaves the page. */
  lemma BrokenUntilGone(spec: Specification, st: State, ev: Event, fs: string)
    requires PageOk(spec, st) && Enabled(spec, st, ev) && fs in Broken(spec, st)
    ensures fs in Broken(spec, Step(spec, st, ev)) <==> fs in Step(spec, st, ev).sets
  {
    StepBreaksExactly(spec, st, ev);
    var after := Step(spec, st, ev);
    SeenIff(spec, after.form, HiddenNow(spec, after.answers), fs);
    if ev.EditPlain? {
      PlainWriteKeepsReady(spec, st, ev);
      RulesKeepSets(spec, st.(answers := PlainWritten(st, ev)), spec.rules);
    }
  }

  /** An edit after which no hidden field is shown is harmless: any edit of a field that
      triggers no rule, and any answer that only hides fields. */
  lemma ShowingNothingIsHarmless(spec: Specification, st: State, ev: Event)
    requires SpecificationOk(spec) && ev.EditPlain?
    requires HiddenNow(spec, st.answers) <= HiddenNow(spec, PlainWritten(st, ev))
    ensures Harmless(spec, st, ev)
  {
    ShownAreNotHidden(spec, HiddenNow(spec, st.answers), PlainWritten(st, ev));
  }

  // -------------------------------------------------------------------------- runs

  /** The events can happen one after the other, each allowed when it comes. */
  ghost predicate Possible(spec: Specification, st: State, events: seq<Event>)
    requires PageOk(spec, st)
    decreases |events|
  {
    events == [] ||
    (Enabled(spec, st, events[0]) &&
     (StepBreaksExactly(spec, st, events[0]); Possible(spec, Step(spec, st, events[0]), events[1..])))
  }

  ghost function Run(spec: Specification, st: State, events: seq<Event>): State
    requires PageOk(spec, st) && Possible(spec, st, events)
    decreases |events|
  {
    if events == [] then st
    else StepBreaksExactly(spec, st, events[0]); Run(spec, Step(spec, st, events[0]), events[1..])
  }

  /** The fieldsets that a run breaks, event by event. */
  ghost function BrokenRun(spec: Specification, st: State, events: seq<Event>, broken: set<string>): set<string>
    requires PageOk(spec, st) && Possible(spec, st, events)
    decreases |events|
  {
    if events == [] then broken
    else
      StepBreaksExactly(spec, st, events[0]);
      BrokenRun(spec, Step(spec, st, events[0]), events[1..], BrokenNext(spec, st, events[0], broken))
  }

  /** All events of the run are harmless. */
  ghost predicate HarmlessRun(spec: Specification, st: State, events: seq<Event>)
    requires PageOk(spec, st) && Possible(spec, st, events)
    decreases |events|
  {
    events == [] ||
    (Harmless(spec, st, events[0]) &&
     (StepBreaksExactly(spec, st, events[0]); HarmlessRun(spec, Step(spec, st, events[0]), events[1..])))
  }

  lemma {:induction false} RunBreaksExactly(spec: Specification, st: State, events: seq<Event>)
    requires PageOk(spec, st) && Possible(spec, st, events)
    ensures PageOk(spec, Run(spec, st, events))
    ensures Broken(spec, Run(spec, st, events)) == BrokenRun(spec, st, events, Broken(spec, st))
    decreases |events|
  {
    if events != [] {
      StepBreaksExactly(spec, st, events[0]);
      RunBreaksExactly(spec, Step(spec, st, events[0]), events[1..]);
    }
  }

  lemma {:induction false} HarmlessRunBreaksNothing(spec: Specification, st: State, events: seq<Event>)
    requires PageOk(spec, st) && Possible(spec, st, events) && HarmlessRun(spec, st, events)
    ensures BrokenRun(spec, st, events, {}) == {}
    decreases |events|
  {
    if events != [] {
      StepBreaksExactly(spec, st, events[0]);
      HarmlessRunBreaksNothing(spec, Step(spec, st, events[0]), events[1..]);
    }
  }

  /** No two fields of the form's rows, and no two rows of a set, share an id. */
  ghost predicate UniqueIds(sp: SetSpec, rows: seq<RowState>)
    requires forall a | 0 <= a < |rows| :: |rows[a].nodes| == |sp.leaves|
  {
    && (forall a, b | 0 <= a < b < |rows| :: rows[a].index != rows[b].index)
    && forall a, b, j, k | 0 <= a < |rows| && 0 <= b < |rows| && 0 <= j < |sp.leaves| && 0 <= k < |sp.leaves| &&
                           sp.leaves[j].isField && (a, j) != (b, k) ::
         NodeId(sp, rows[a], j) != NodeId(sp, rows[b], k)
  }

  /** What is seen of a fieldset: at least two rows, indices strictly increasing, unique
      ids, exactly the last row disabled, the row before it blank, and nothing required in
      a row without answers, unless it is the first. */
  ghost predicate WellGrown(sp: SetSpec, rows: seq<RowState>, answers: seq<Entry>) {
    && |rows| >= 2 && Increasing(rows)
    && (forall a | 0 <= a < |rows| :: |rows[a].nodes| == |sp.leaves| && (rows[a].disabled <==> a == |rows| - 1))
    && (forall a, j | 0 <= a < |rows| && 0 <= j < |sp.leaves| :: rows[a].nodes[j].disabled == rows[a].disabled)
    && UniqueIds(sp, rows)
    && (forall a, j | |rows| - 2 <= a < |rows| && 0 <= j < |sp.leaves| && sp.leaves[j].isField ::
         Read(answers, NodeId(sp, rows[a], j)) == Flat(""))
    && FlagsOk(sp, rows, SetView(answers, sp.fs))
  }

  lemma InvIsWellGrown(sp: SetSpec, rows: seq<RowState>, answers: seq<Entry>)
    requires SpecOk(sp) && Placed(answers) && Inv(sp, rows, SetView(answers, sp.fs))
    ensures WellGrown(sp, rows, answers)
  {
    forall a, b, j, k | 0 <= a < |rows| && 0 <= b < |rows| && 0 <= j < |sp.leaves| && 0 <= k < |sp.leaves| &&
                        sp.leaves[j].isField && (a, j) != (b, k)
      ensures NodeId(sp, rows[a], j) != NodeId(sp, rows[b], k)
    {
      FieldIdsAreUnique(sp, rows, a, j, b, k);
    }
    forall a, j | |rows| - 2 <= a < |rows| && 0 <= j < |sp.leaves| && sp.leaves[j].isField
      ensures Read(answers, NodeId(sp, rows[a], j)) == Flat("")
    {
      ReadMeans(answers, NodeId(sp, rows[a], j));
      if rows[a].index in SetView(answers, sp.fs) { assert HasEnabledRow(rows, rows[a].index); }
    }
  }

  lemma StuckIsNotWellGrown(sp: SetSpec, rows: seq<RowState>, answers: seq<Entry>)
    requires Stuck(rows)
    ensures !WellGrown(sp, rows, answers)
  {
  }

  /** The growing-row invariant over any run: whatever was saved and whatever the user then
      does, a growing fieldset on the page is well grown if and only if it is not among
      those that the run has broken. */
  lemma EveryRunIsWellGrownIff(spec: Specification, saved: seq<Entry>, events: seq<Event>, fs: string)
    requires SpecificationOk(spec) && Loadable(spec, saved) && Possible(spec, Load(spec, saved), events)
    requires fs in Run(spec, Load(spec, saved), events).sets
    ensures var end := Run(spec, Load(spec, saved), events);
      && fs in spec.sets
      && (WellGrown(spec.sets[fs], end.sets[fs], end.answers) <==> fs !in BrokenRun(spec, Load(spec, saved), events, {}))
  {
    RunBreaksExactly(spec, Load(spec, saved), events);
    var end := Run(spec, Load(spec, saved), events);
    if SetOk(spec, end, fs) {
      InvIsWellGrown(spec.sets[fs], end.sets[fs], end.answers);
    } else {
      assert Stranded(end, fs);
      StuckIsNotWellGrown(spec.sets[fs], end.sets[fs], end.answers);
    }
  }

  /** While the user does no harm, every growing fieldset on the page stays well grown. */
  lemma EveryRunIsWellGrown(spec: Specification, saved: seq<Entry>, events: seq<Event>, fs: string)
    requires SpecificationOk(spec) && Loadable(spec, saved) && Possible(spec, Load(spec, saved), events)
    requires HarmlessRun(spec, Load(spec, saved), events) && fs in Run(spec, Load(spec, saved), events).sets
    ensures var end := Run(spec, Load(spec, saved), events);
      fs in spec.sets && WellGrown(spec.sets[fs], end.sets[fs], end.answers)
  {
    HarmlessRunBreaksNothing(spec, Load(spec, saved), events);
    EveryRunIsWellGrownIff(spec, saved, events, fs);
  }

  /** After any run, the page has exactly the fields of the specification that the
      answers do not hide, and the growing fieldsets among them. */
  lemma EveryRunIsSettled(spec: Specification, saved: seq<Entry>, events: seq<Event>)
    requires SpecificationOk(spec) && Loadable(spec, saved) && Possible(spec, Load(spec, saved), events)
    ensures var end := Run(spec, Load(spec, saved), events);
      var shown := Laws.Pruned(spec.content, HiddenNow(spec, end.answers));
      && SiblingOrder.SameTrees(end.form, shown) && FormTree.Ids(end.form) == FormTree.Ids(shown)
      && FormTree.Unique(end.form) && end.sets.Keys == SetsIn(spec, shown)
  {
    RunBreaksExactly(spec, Load(spec, saved), events);
    var end := Run(spec, Load(spec, saved), events);
    var shown := Laws.Pruned(spec.content, HiddenNow(spec, end.answers));
    SiblingOrder.SameIds(end.form, shown);
    Laws.PrunedUnique(spec.content, HiddenNow(spec, end.answers));
  }

  /** The reloaded rows of a set, compared with those the answers came from. */
  ghost predicate SameAnsweredRows(sp: SetSpec, rows: seq<RowState>, again: seq<RowState>, values: SetValues) {
    exists n :: 0 <= n <= |rows| && n <= |again| && SameFirstRows(sp, rows, again, values, n)
  }

  /** Exactly the first n rows have answers, and they are the same. */
  ghost predicate SameFirstRows(sp: SetSpec, rows: seq<RowState>, again: seq<RowState>, values: SetValues, n: nat)
    requires n <= |rows| && n <= |again|
  {
    && (forall a | 0 <= a < |rows| :: rows[a].index in values <==> a < n)
    && (forall a | 0 <= a < n :: SameRow(sp, again[a], rows[a]))
  }

  lemma ReloadedRows(sp: SetSpec, rows: seq<RowState>, answers: seq<Entry>)
    requires Placed(answers) && Inv(sp, rows, SetView(answers, sp.fs))
    ensures RowKeys(RowsOf(answers, sp.fs))
    ensures SameAnsweredRows(sp, rows, InitialRows(sp, RowsOf(answers, sp.fs)), SetView(answers, sp.fs))
  {
    ReloadRoundTrip(sp, rows, answers);
    InitialRenderEstablishes(sp, answers);
    var setValue := RowsOf(answers, sp.fs);
    var rendered, again := AnsweredRows(sp, setValue), InitialRows(sp, setValue);
    assert forall a | 0 <= a < |rendered| :: again[a] == rendered[a];
    if setValue == [] { assert SetView(answers, sp.fs) == map[]; }
    assert SameFirstRows(sp, rows, again, SetView(answers, sp.fs), AnsweredCount(rows, SetView(answers, sp.fs)));
  }

  /** Without answers there is nothing to bring back. */
  lemma NothingReloads(sp: SetSpec, rows: seq<RowState>, answers: seq<Entry>)
    requires Placed(answers) && Ready(rows) && RowsOf(answers, sp.fs) == [] && RowKeys([])
    ensures SameAnsweredRows(sp, rows, InitialRows(sp, []), SetView(answers, sp.fs))
  {
    UnansweredIff(answers, sp.fs);
    assert SameFirstRows(sp, rows, InitialRows(sp, []), SetView(answers, sp.fs), 0);
  }

  /** The reload round trip: the answers of any run can be loaded again; the page then has
      the same fields, no fieldset is broken, and of every growing fieldset there are exactly
      the run's rows that have answers, in order. */
  lemma EveryRunReloads(spec: Specification, saved: seq<Entry>, events: seq<Event>, fs: string)
    requires SpecificationOk(spec) && Loadable(spec, saved) && Possible(spec, Load(spec, saved), events)
    requires fs in Run(spec, Load(spec, saved), events).sets
    ensures var end := Run(spec, Load(spec, saved), events);
      && Loadable(spec, end.answers)
      && var again := Load(spec, end.answers);
      && StateOk(spec, again)
      && FormTree.Ids(again.form) == FormTree.Ids(end.form) && again.sets.Keys == end.sets.Keys && fs in spec.sets
      && SameAnsweredRows(spec.sets[fs], end.sets[fs], again.sets[fs], SetView(end.answers, fs))
  {
    RunBreaksExactly(spec, Load(spec, saved), events);
    var end := Run(spec, Load(spec, saved), events);
    var again, shown := Load(spec, end.answers), Laws.Pruned(spec.content, HiddenNow(spec, end.answers));
    SiblingOrder.SameIds(end.form, shown);
    SiblingOrder.SameIds(again.form, shown);
    SetReloads(spec, end, fs);
  }

  lemma SetReloads(spec: Specification, st: State, fs: string)
    requires PageOk(spec, st) && fs in st.sets
    ensures fs in spec.sets && RowKeys(RowsOf(st.answers, fs))
    ensures SameAnsweredRows(spec.sets[fs], st.sets[fs], InitialRows(spec.sets[fs], RowsOf(st.answers, fs)), SetView(st.answers, fs))
  {
    if SetOk(spec, st, fs) {
      ReloadedRows(spec.sets[fs], st.sets[fs], st.answers);
    } else {
      assert Stranded(st, fs);
      NothingReloads(spec.sets[fs], st.sets[fs], st.answers);
    }
  }
}
