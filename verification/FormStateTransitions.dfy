/** The state of an open form, edited in place by the events of the page. */
module FormStateTransitions {
  import opened FieldIdentity
  import opened Options
  import FormTree
  import TreeLaws
  import Rules = FormRules
  import Laws = RuleLaws
  import opened AnswerStore
  import opened GrowingFieldset
  import opened GrowingInvariant
  import opened FormPage
  import opened RenderedAgain
  import opened FormRuns

  // -------------------------------------------------------------- answer nodes

  lemma {:induction false} WriteChildAt(es: seq<Entry>, i: nat, key: Id, value: Value, fieldType: string)
    requires i <= |es| && (forall k | 0 <= k < i :: es[k].key != key) && (i < |es| ==> es[i].key == key)
    ensures WriteChild(es, key, value, fieldType) ==
      if i < |es| then es[i := es[i].(value := value)] else es + [Entry(key, value, fieldType)]
  {
    if i > 0 {
      WriteChildAt(es[1..], i - 1, key, value, fieldType);
      assert es == [es[0]] + es[1..];
    }
  }

  /** Sets the value of the first child with the key, or pushes a new child. */
  method WriteChildValue(es: seq<Entry>, key: Id, value: Value, fieldType: string) returns (r: seq<Entry>)
    ensures r == WriteChild(es, key, value, fieldType)
  {
    var i := 0;
    while i < |es| && es[i].key != key
      invariant 0 <= i <= |es| && forall k | 0 <= k < i :: es[k].key != key
    {
      i := i + 1;
    }
    WriteChildAt(es, i, key, value, fieldType);
    if i < |es| {
      r := es[i := es[i].(value := value)];
    } else {
      r := es + [Entry(key, value, fieldType)];
    }
  }

  // --------------------------------------------------------------- making rows

  /** A copy of the prototype with the next index, not required, enabled or not. */
  method CreateNewChild(sp: SetSpec, lastIndex: nat, enable: bool) returns (row: RowState)
    ensures row == NewRow(sp, lastIndex, enable)
  {
    var nodes: seq<Node> := [];
    for j := 0 to |sp.leaves|
      invariant |nodes| == j && forall k | 0 <= k < j :: nodes[k] == Node(lastIndex + 1, false, !enable)
    {
      var node := Node(sp.protoIndex, sp.leaves[j].required, false);
      node := node.(index := lastIndex + 1);
      if node.required { node := node.(required := false); }
      if !enable { node := node.(disabled := true); }
      nodes := nodes + [node];
    }
    row := RowState(lastIndex + 1, false, !enable, nodes);
  }

  /** A copy of the prototype whose fields take the ids found among a row's answers. */
  method PopulateRepeatingItem(sp: SetSpec, e: Entry) returns (row: RowState)
    requires e.key.Row?
    ensures row == EntryRow(sp, e)
  {
    var values := Children(e.value);
    var nodes: seq<Node> := [];
    for j := 0 to |sp.leaves|
      invariant |nodes| == j && forall k | 0 <= k < j ::
        nodes[k] == Node(RenderedIndex(values, sp.leaves[k].name, sp.protoIndex), sp.leaves[k].required, false)
    {
      var node := Node(sp.protoIndex, sp.leaves[j].required, false);
      for i := 0 to |values|
        invariant node == Node(RenderedIndex(values[..i], sp.leaves[j].name, sp.protoIndex), sp.leaves[j].required, false)
      {
        assert values[..i + 1][..i] == values[..i];
        if values[i].key.Leaf? && values[i].key.name == sp.leaves[j].name {
          node := node.(index := values[i].key.index);
        }
      }
      assert values[..|values|] == values;
      nodes := nodes + [node];
    }
    row := RowState(e.key.index, sp.rowRequired, false, nodes);
  }

  /** The rows of the answers, in index order. */
  method PopulateGrowingSet(sp: SetSpec, setValue: seq<Entry>) returns (rows: seq<RowState>)
    requires RowsPlaced(sp.fs, setValue)
    ensures RowKeys(setValue) && rows == EntryRows(sp, SortEntries(setValue))
  {
    SortedRows(sp, setValue);
    rows := MakeRows(sp, SortEntries(setValue));
    rows := SortRows(rows);
  }

  method MakeRows(sp: SetSpec, es: seq<Entry>) returns (rows: seq<RowState>)
    requires RowKeys(es)
    ensures rows == EntryRows(sp, es)
  {
    EntryRowsAt(sp, es);
    rows := [];
    for i := 0 to |es|
      invariant rows == EntryRows(sp, es)[..i]
    {
      assert es[i] in es;
      var row := PopulateRepeatingItem(sp, es[i]);
      rows := rows + [row];
    }
  }

  lemma SortedRows(sp: SetSpec, setValue: seq<Entry>)
    requires RowsPlaced(sp.fs, setValue)
    ensures RowKeys(setValue) && RowKeys(SortEntries(setValue))
    ensures var rows := EntryRows(sp, SortEntries(setValue)); SortRows(rows) == rows
  {
    SortEntriesSorts(setValue, sp.fs);
    EntryRowsAt(sp, SortEntries(setValue));
    SortRowsKeepsOrder(EntryRows(sp, SortEntries(setValue)));
  }

  /** The edit-mode render of one growing fieldset that has rows already. */
  method RenderGrowingSet(sp: SetSpec, now: seq<RowState>, answers: seq<Entry>) returns (rows: seq<RowState>)
    requires Placed(answers) && now != []
    ensures RowKeys(RowsOf(answers, sp.fs)) && rows == Rendered(sp, now, RowsOf(answers, sp.fs))
  {
    RowsOfPlaced(answers, sp.fs);
    var growingSetValue := Children(Read(answers, Fieldset(sp.fs)));
    rows := now;
    if growingSetValue != [] {
      rows := PopulateGrowingSet(sp, growingSetValue);
    }
    var answered := HaveAnswers(sp, rows, growingSetValue);
    rows := AddPlaceholders(sp, rows, answered);
  }

  method AddPlaceholders(sp: SetSpec, rows: seq<RowState>, answered: bool) returns (r: seq<RowState>)
    requires rows != []
    ensures r == WithPlaceholders(sp, rows, answered)
  {
    r := rows;
    if answered {
      var enabled := CreateNewChild(sp, r[|r| - 1].index, true);
      r := r + [enabled];
    }
    var disabled := CreateNewChild(sp, r[|r| - 1].index, false);
    r := r + [disabled];
  }

  /** The edit-mode render of the growing fieldsets of a part of the form. */
  method RenderGrowingSets(spec: Specification, part: seq<Tree>, now: map<string, seq<RowState>>, answers: seq<Entry>)
      returns (sets: map<string, seq<RowState>>)
    requires SetsSpecified(spec) && Placed(answers) && forall fs | fs in now :: now[fs] != []
    ensures sets.Keys == now.Keys + SetsIn(spec, part)
    ensures forall fs | fs in sets ::
      sets[fs] == if fs in SetsIn(spec, part) then RenderedSet(spec, now, answers, fs) else now[fs]
  {
    sets := now;
    var todo := SetsIn(spec, part);
    while todo != {}
      invariant todo <= SetsIn(spec, part) && sets.Keys == now.Keys + (SetsIn(spec, part) - todo)
      invariant forall fs | fs in sets ::
        sets[fs] == if fs in SetsIn(spec, part) - todo then RenderedSet(spec, now, answers, fs) else now[fs]
      decreases todo
    {
      var fs :| fs in todo;
      var rows := RenderGrowingSet(spec.sets[fs], RowsNow(spec, now, fs), answers);
      sets := sets[fs := rows];
      todo := todo - {fs};
    }
  }

  /** The worklist of answers to write: what the row's form fields read, addressed to
      the prototype's fields. */
  method CollectAnswersToWrite(sp: SetSpec, first: RowState, answers: seq<Entry>) returns (us: seq<Update>)
    requires |first.nodes| == |sp.leaves|
    ensures us == MovedAnswers(sp, first, answers, 0)
  {
    us := [];
    for j := 0 to |sp.leaves|
      invariant us + MovedAnswers(sp, first, answers, j) == MovedAnswers(sp, first, answers, 0)
    {
      if sp.leaves[j].isField {
        var existing := TextOf(Read(answers, NodeId(sp, first, j)));
        us := us + [Update(Leaf(sp.fs, sp.protoIndex, sp.leaves[j].name), existing, sp.leaves[j].fieldType)];
      }
    }
  }

  /** Gives every node of the row the id and the required flag of its prototype. */
  method MutateIdsToMatchPrototype(sp: SetSpec, first: RowState) returns (moved: RowState)
    requires |first.nodes| == |sp.leaves|
    ensures moved == AsPrototype(sp, first)
  {
    moved := first.(index := sp.protoIndex, required := sp.rowRequired);
    for j := 0 to |sp.leaves|
      invariant |moved.nodes| == |sp.leaves| && moved == AsPrototype(sp, first).(nodes := moved.nodes)
      invariant forall k | 0 <= k < |sp.leaves| ::
        moved.nodes[k] == if k < j then AsPrototype(sp, first).nodes[k] else first.nodes[k]
    {
      moved := moved.(nodes := moved.nodes[j := moved.nodes[j].(index := sp.protoIndex, required := sp.leaves[j].required)]);
    }
  }

  /** Removes the rows that have the index from a list of rows. */
  method RemoveChild(rows: seq<RowState>, index: nat) returns (left: seq<RowState>)
    ensures left == RemoveRows(rows, index)
  {
    left := [];
    for b := 0 to |rows|
      invariant left + RemoveRows(rows[b..], index) == RemoveRows(rows, index)
    {
      assert rows[b..][1..] == rows[b + 1..];
      if rows[b].index != index { left := left + [rows[b]]; }
    }
  }

  /** The rules run on the tree before its fieldsets are rendered. */
  lemma OpeningRendersNothing(spec: Specification, saved: seq<Entry>)
    requires SpecificationOk(spec) && Loadable(spec, saved)
    ensures Rules.RulesOk(spec.content, spec.rules)
    ensures var st := Unrendered(spec, spec.content, saved);
      && SetsThere(spec, st) && SetsThere(spec, ApplyRules(spec, st, spec.rules))
      && ApplyRules(spec, st, spec.rules) ==
           Unrendered(spec, Rules.ApplyRules(spec.content, spec.content, spec.rules, PlainView(saved)), saved)
  {
    RulesAreTargeted(spec);
    Laws.PrunedNothing(spec.content, false);
    RulesRenderNothing(spec, spec.content, saved, {}, 0);
    assert spec.rules[0..] == spec.rules;
    RulesKeepSets(spec, Unrendered(spec, spec.content, saved), spec.rules);
  }

  lemma OpenedIsLoaded(spec: Specification, saved: seq<Entry>, st: State)
    requires SpecificationOk(spec) && Loadable(spec, saved) && Rules.RulesOk(spec.content, spec.rules)
    requires st.form == Rules.ApplyRules(spec.content, spec.content, spec.rules, PlainView(saved)) && st.answers == saved
    requires st.sets.Keys == SetsIn(spec, st.form)
    requires forall fs | fs in st.sets :: st.sets[fs] == RenderedSet(spec, Unrendered(spec, st.form, saved).sets, saved, fs)
    ensures st == Load(spec, saved)
  {
    forall fs | fs in st.sets ensures st.sets[fs] == LoadSet(spec.sets[fs], saved) { OpenedSet(spec, saved, st.form, fs); }
    SameSets(st.sets, Load(spec, saved).sets);
  }

  lemma OpenedSet(spec: Specification, saved: seq<Entry>, form: seq<Tree>, fs: string)
    requires SpecificationOk(spec) && Loadable(spec, saved) && fs in SetsIn(spec, form)
    ensures spec.sets[fs].fs == fs && Renderable(spec.sets[fs], SetView(saved, fs))
    ensures RenderedSet(spec, Unrendered(spec, form, saved).sets, saved, fs) == LoadSet(spec.sets[fs], saved)
  {
  }

  lemma SameSets(sets: map<string, seq<RowState>>, others: map<string, seq<RowState>>)
    requires sets.Keys == others.Keys && forall fs | fs in sets :: sets[fs] == others[fs]
    ensures sets == others
  {
  }

  /** The sets on the page after a field has come in among the children of its parent. */
  lemma IncludedSets(spec: Specification, st: State, id: string, children: seq<Tree>, sets: map<string, seq<RowState>>)
    requires SetsThere(spec, st) && FormTree.FindParent(spec.content, id).Some? && Rules.Toggles(spec.content, st.form, id, true)
    requires children == ChildrenAfter(spec, st.form, id)
    requires sets.Keys == (st.sets.Keys + SetsIn(spec, children)) * SetsIn(spec, Rules.IncludeOrRemove(spec.content, st.form, id, true))
    requires forall fs | fs in sets ::
      sets[fs] == if fs in SetsIn(spec, children) then RenderedSet(spec, st.sets, st.answers, fs) else st.sets[fs]
    ensures sets == IncludeOrRemove(spec, st, id, true).sets
  {
    ParentRendered(spec, st.form, id);
    NewSetsAreBeside(spec, st.form, id, true);
    SameSets(sets, IncludeOrRemove(spec, st, id, true).sets);
  }

  function ChildrenAfter(spec: Specification, form: seq<Tree>, id: string): seq<Tree>
    requires FormTree.FindParent(spec.content, id).Some? && Rules.Toggles(spec.content, form, id, true)
  {
    var specParent := FormTree.FindParent(spec.content, id).value;
    Rules.ChildrenWith(specParent, FormTree.Find(form, specParent.id).value.children, id, true)
  }

  lemma ParentRendered(spec: Specification, form: seq<Tree>, id: string)
    requires FormTree.FindParent(spec.content, id).Some? && Rules.Toggles(spec.content, form, id, true)
    ensures SetsBeside(spec, Rules.IncludeOrRemove(spec.content, form, id, true), id) == SetsIn(spec, ChildrenAfter(spec, form, id))
  {
    TreeLaws.FindChanged(form, FormTree.FindParent(spec.content, id).value.id, ChildrenAfter(spec, form, id));
  }

  /** The rows of a fieldset leave the page with it. */
  function OnPage(sets: map<string, seq<RowState>>, page: set<string>): (r: map<string, seq<RowState>>)
    ensures r.Keys == sets.Keys * page && forall fs | fs in r :: r[fs] == sets[fs]
  {
    map fs | fs in sets && fs in page :: sets[fs]
  }

  /** The field among the current children, where the specification has it. */
  method InsertField(specParent: Tree, current: seq<Tree>, id: string) returns (children: seq<Tree>)
    requires specParent.Branch? && FormTree.HasChild(specParent.children, id)
    ensures children == Rules.ChildrenWith(specParent, current, id, true)
  {
    Rules.ChildIsFound(specParent.children, id);
    var k := Rules.FindChildIndexAccordingToFieldSpecification(specParent.children, current, id);
    children := current[..k] + [FormTree.Find(specParent.children, id).value] + current[k..];
  }

  // ------------------------------------------------------------- the open form

  class OpenForm {
    const spec: Specification                // the form specification
    var form: seq<Tree>                      // the tree on the page
    var sets: map<string, seq<RowState>>     // the growing fieldsets in it
    var answers: seq<Entry>
    var changes: bool

    ghost function Current(): State
      reads this
    {
      State(form, sets, answers)
    }

    ghost predicate Valid()
      reads this
    {
      PageOk(spec, Current())
    }

    constructor (spec: Specification, saved: seq<Entry>)
      requires SpecificationOk(spec) && Loadable(spec, saved)
      ensures this.spec == spec && Valid() && Current() == Load(spec, saved) && !changes
      ensures Broken(spec, Current()) == {}
    {
      this.spec := spec;
      form := spec.content;
      sets := map fs | fs in SetsIn(spec, spec.content) :: [PrototypeRow(spec.sets[fs])];
      answers := saved;
      changes := false;
      new;
      OpeningRendersNothing(spec, saved);
      ApplyRulesToForm();
      sets := RenderGrowingSets(spec, form, sets, answers);
      OpenedIsLoaded(spec, saved, Current());
    }

    // ---------------------------------------------------------------- rules

    /** Puts a field where the specification has it, and renders the growing fieldsets of
        its parent. */
    method AddNewField(parent: Tree, specParent: Tree, id: string)
      requires SetsSpecified(spec) && SetsThere(spec, Current()) && FormTree.FindParent(spec.content, id) == Some(specParent)
      requires FormTree.Find(form, specParent.id) == Some(parent) && parent.Branch? && FormTree.Find(form, id).None?
      modifies this`form, this`sets
      ensures Current() == IncludeOrRemove(spec, old(Current()), id, true)
    {
      ghost var before := Current();
      var children := InsertField(specParent, parent.children, id);
      form := FormTree.WithChildren(form, specParent.id, children);
      sets := RenderGrowingSets(spec, children, sets, answers);
      sets := OnPage(sets, SetsIn(spec, form));
      IncludedSets(spec, before, id, children, sets);
    }

    /** Takes a field out, and the growing fieldsets inside it. */
    method RemoveField(parent: Tree, specParent: Tree, id: string)
      requires SetsThere(spec, Current()) && FormTree.FindParent(spec.content, id) == Some(specParent)
      requires FormTree.Find(form, specParent.id) == Some(parent) && parent.Branch? && FormTree.Find(form, id).Some?
      modifies this`form, this`sets
      ensures Current() == IncludeOrRemove(spec, old(Current()), id, false)
    {
      ghost var before := Current();
      NewSetsAreBeside(spec, form, id, false);
      form := FormTree.WithChildren(form, specParent.id, FormTree.RemoveById(parent.children, id));
      sets := OnPage(sets, SetsIn(spec, form));
      assert sets == IncludeOrRemove(spec, before, id, false).sets;
    }

    method DoIncludeOrRemoveField(doInclude: bool, id: string)
      requires SetsSpecified(spec) && SetsThere(spec, Current()) && FormTree.FindParent(spec.content, id).Some?
      modifies this`form, this`sets
      ensures Current() == IncludeOrRemove(spec, old(Current()), id, doInclude)
    {
      var specParent := FormTree.FindParent(spec.content, id).value;
      var parent := FormTree.Find(form, specParent.id);
      if parent.Some? && parent.value.Branch? {
        var fieldToInclude := FormTree.Find(form, id);
        if doInclude {
          if fieldToInclude.None? { AddNewField(parent.value, specParent, id); }
        } else {
          if fieldToInclude.Some? { RemoveField(parent.value, specParent, id); }
        }
      }
    }

    method HandleIncludeIf(rule: Rules.Rule)
      requires SetsSpecified(spec) && SetsThere(spec, Current()) && Rules.TargetsOk(spec.content, rule.targetIds)
      modifies this`form, this`sets
      ensures Current() == ApplyTargets(spec, old(Current()), rule.targetIds, Laws.Includes(rule, PlainView(answers)))
      ensures SetsThere(spec, Current())
    {
      ReadMeans(answers, Plain(rule.triggerId));
      var doInclude := TextOf(Read(answers, Plain(rule.triggerId))) == rule.triggerValue;
      ghost var before := Current();
      for i := 0 to |rule.targetIds|
        invariant SetsThere(spec, Current()) && answers == before.answers
        invariant ApplyTargets(spec, before, rule.targetIds, doInclude) ==
          ApplyTargets(spec, Current(), rule.targetIds[i..], doInclude)
      {
        assert rule.targetIds[i..][1..] == rule.targetIds[i + 1..];
        TargetKeepsSets(spec, Current(), rule.targetIds[i], doInclude);
        DoIncludeOrRemoveField(doInclude, rule.targetIds[i]);
      }
    }

    method ApplyRulesToForm()
      requires SetsSpecified(spec) && SetsThere(spec, Current()) && Rules.RulesOk(spec.content, spec.rules)
      modifies this`form, this`sets
      ensures Current() == ApplyRules(spec, old(Current()), spec.rules)
    {
      ghost var before := Current();
      for i := 0 to |spec.rules|
        invariant SetsThere(spec, Current()) && answers == before.answers
        invariant ApplyRules(spec, before, spec.rules) == ApplyRules(spec, Current(), spec.rules[i..])
      {
        assert spec.rules[i..][1..] == spec.rules[i + 1..];
        if spec.rules[i].ruleType == "includeIf" {
          HandleIncludeIf(spec.rules[i]);
        }
      }
    }

    // ----------------------------------------------------- growing fieldsets

    /** The positions of the rows that contain a field. */
    method RowsContaining(sp: SetSpec, rows: seq<RowState>, id: Id) returns (found: seq<nat>)
      requires forall a | 0 <= a < |rows| :: |rows[a].nodes| == |sp.leaves|
      ensures forall a: nat :: a in found <==> a < |rows| && Contains(sp, rows[a], id)
      ensures forall i, k | 0 <= i < k < |found| :: found[i] < found[k]
    {
      found := [];
      for a := 0 to |rows|
        invariant forall b: nat :: b in found <==> b < a && Contains(sp, rows[b], id)
        invariant forall i, k | 0 <= i < k < |found| :: found[i] < found[k]
        invariant forall i | 0 <= i < |found| :: found[i] < a
      {
        if Contains(sp, rows[a], id) { found := found + [a]; }
      }
    }

    /** Writes a field of a row; fails where more than one row contains the field. */
    method WriteRowValue(fs: string, u: Update, ghost a: nat) returns (thrown: bool)
      requires fs in spec.sets && fs in sets && RowsOk(spec.sets[fs], sets[fs]) && spec.sets[fs].fs == fs
      requires a < |sets[fs]| && Contains(spec.sets[fs], sets[fs][a], u.id)
      modifies this`answers
      ensures thrown <==> exists b :: 0 <= b < |sets[fs]| && b != a && Contains(spec.sets[fs], sets[fs][b], u.id)
      ensures answers == if thrown then old(answers) else WriteInRow(old(answers), fs, Row(fs, sets[fs][a].index), u)
    {
      var found := RowsContaining(spec.sets[fs], sets[fs], u.id);
      assert a in found;
      if |found| > 1 {
        ghost var b := if found[0] == a then found[1] else found[0];
        assert b in found;
        return true;
      }
      assert found == [a];
      thrown := false;
      var row := Row(fs, sets[fs][found[0]].index);
      if Find(answers, Fieldset(fs)).None? {
        answers := WriteChildValue(answers, Fieldset(fs), List([]), GROWING_FIELDSET);
      }
      if Find(Children(Read(answers, Fieldset(fs))), row).None? {
        answers := OnChildren(answers, Fieldset(fs), kids => WriteChild(kids, row, List([]), GROWING_FIELDSET_CHILD));
      }
      answers := OnChildren(answers, row, kids => WriteChild(kids, u.id, Flat(u.value), u.fieldType));
    }

    /** Enables the disabled last row and appends a new one when the last but one row is
        edited, which becomes required where its prototype is. */
    method ExpandGrowingFieldSetIfNeeded(fs: string, id: Id)
      requires fs in spec.sets && fs in sets && RowsOk(spec.sets[fs], sets[fs])
      modifies this`sets
      ensures sets == old(sets)[fs := Expand(spec.sets[fs], old(sets[fs]), id)]
    {
      var sp, rows := spec.sets[fs], sets[fs];
      var n := |rows|;
      if Contains(sp, rows[n - 2], id) {
        var edited := rows[n - 2];
        if sp.rowRequired { edited := edited.(required := true); }
        for j := 0 to |sp.leaves|
          invariant |edited.nodes| == |sp.leaves| && edited == RequireRow(sp, rows[n - 2]).(nodes := edited.nodes)
          invariant forall k | 0 <= k < |sp.leaves| ::
            edited.nodes[k] == if k < j then RequireRow(sp, rows[n - 2]).nodes[k] else rows[n - 2].nodes[k]
        {
          if sp.leaves[j].required {
            edited := edited.(nodes := edited.nodes[j := edited.nodes[j].(required := true)]);
          }
        }
        assert edited == RequireRow(sp, rows[n - 2]);
        var enabled := rows[n - 1].(disabled := false);
        for j := 0 to |enabled.nodes|
          invariant |enabled.nodes| == |rows[n - 1].nodes| && enabled == EnableRow(rows[n - 1]).(nodes := enabled.nodes)
          invariant forall k | 0 <= k < |enabled.nodes| ::
            enabled.nodes[k] == if k < j then EnableRow(rows[n - 1]).nodes[k] else rows[n - 1].nodes[k]
        {
          enabled := enabled.(nodes := enabled.nodes[j := enabled.nodes[j].(disabled := false)]);
        }
        assert enabled == EnableRow(rows[n - 1]);
        var newRow := CreateNewChild(sp, rows[n - 1].index, false);
        sets := sets[fs := rows[..n - 2] + [edited, enabled, newRow]];
      } else {
        assert sets == sets[fs := rows];
      }
    }

    /** Validates the fields of row a other than the edited one, which writes back what
        each of them reads. */
    method ValidateFields(fs: string, a: nat, edited: Id) returns (thrown: bool)
      requires fs in spec.sets && fs in sets && RowsOk(spec.sets[fs], sets[fs]) && SpecOk(spec.sets[fs]) && spec.sets[fs].fs == fs
      requires a < |sets[fs]|
      modifies this`answers
      ensures !thrown && answers == Touch(spec.sets[fs], sets[fs][a], old(answers), edited, 0)
    {
      var sp, row := spec.sets[fs], sets[fs][a];
      for j := 0 to |sp.leaves|
        invariant Touch(sp, row, answers, edited, j) == Touch(sp, row, old(answers), edited, 0)
      {
        if sp.leaves[j].isField && NodeId(sp, row, j) != edited {
          var id := NodeId(sp, row, j);
          var value := TextOf(Read(answers, id));
          forall b: nat | b < |sets[fs]| ensures Contains(sp, sets[fs][b], id) <==> a == b {
            FieldIsInItsRow(sp, sets[fs], a, b, j);
          }
          thrown := WriteRowValue(fs, Update(id, value, sp.leaves[j].fieldType), a);
        }
      }
      thrown := false;
    }

    /** Writes the field, applies the rules, which are at rest, grows the fieldset and
        validates the rest of the row. */
    method EditRowField(fs: string, a: nat, j: nat, value: string) returns (thrown: bool)
      requires SetsSpecified(spec) && Rules.RulesOk(spec.content, spec.rules)
      requires fs in spec.sets && fs in sets && RowsOk(spec.sets[fs], sets[fs]) && SpecOk(spec.sets[fs])
      requires a < |sets[fs]| - 1 && j < |spec.sets[fs].leaves| && spec.sets[fs].leaves[j].isField
      requires RulesRest(fs, a, j, value)
      modifies this`form, this`sets, this`answers
      ensures !thrown && form == old(form)
      ensures var rows := old(sets[fs]); var after := Expand(spec.sets[fs], rows, NodeId(spec.sets[fs], rows[a], j));
        && sets == old(sets)[fs := after] && a < |after| && |after[a].nodes| == |spec.sets[fs].leaves|
        && answers == EditAnswers(spec.sets[fs], rows[a], after[a], old(answers), j, value)
    {
      var sp := spec.sets[fs];
      var id := NodeId(sp, sets[fs][a], j);
      forall b: nat | b < |sets[fs]| ensures Contains(sp, sets[fs][b], id) <==> a == b {
        FieldIsInItsRow(sp, sets[fs], a, b, j);
      }
      ExpandedRows(sp, sets[fs], a, j);
      thrown := WriteRowValue(fs, Update(id, value, sp.leaves[j].fieldType), a);
      ApplyRulesToForm();
      ExpandGrowingFieldSetIfNeeded(fs, id);
      thrown := ValidateFields(fs, a, id);
    }

    /** Once the field is written, applying the rules does nothing. */
    ghost predicate RulesRest(fs: string, a: nat, j: nat, value: string)
      requires fs in spec.sets && fs in sets && Rules.RulesOk(spec.content, spec.rules)
      requires a < |sets[fs]| && j < |spec.sets[fs].leaves| && |sets[fs][a].nodes| == |spec.sets[fs].leaves|
      reads this
    {
      var sp, row := spec.sets[fs], sets[fs][a];
      var written := WriteInRow(answers, fs, Row(fs, row.index), Update(NodeId(sp, row, j), value, sp.leaves[j].fieldType));
      SetsThere(spec, State(form, sets, written)) && ApplyRules(spec, State(form, sets, written), spec.rules) == State(form, sets, written)
    }

    method EditEnabledField(fs: string, a: nat, j: nat, value: string) returns (thrown: bool)
      requires Valid() && Enabled(spec, Current(), EditRow(fs, a, j, value))
      modifies this`form, this`sets, this`answers
      ensures !thrown && Current() == Step(spec, old(Current()), EditRow(fs, a, j, value))
    {
      var ev := EditRow(fs, a, j, value);
      EditStarts(spec, Current(), fs, a, j, value);
      RowEditStep(spec, Current(), ev);
      RulesRestAtRowEdits(spec, Current(), ev);
      assert State(form, sets, RowWritten(spec, Current(), ev)) == Current().(answers := RowWritten(spec, Current(), ev));
      thrown := EditRowField(fs, a, j, value);
    }

    /** An edit of field j in row a of a growing fieldset. */
    method OnUpdateRowField(fs: string, a: nat, j: nat, value: string) returns (thrown: bool)
      requires Valid() && Enabled(spec, Current(), EditRow(fs, a, j, value))
      modifies this
      ensures !thrown && changes && Valid() && SamelyBroken(spec, old(Current()), Current())
      ensures Current() == Step(spec, old(Current()), EditRow(fs, a, j, value))
    {
      ghost var after := Step(spec, Current(), EditRow(fs, a, j, value));
      EditRowOk(spec, Current(), EditRow(fs, a, j, value));
      thrown := EditEnabledField(fs, a, j, value);
      changes := true;
      assert Current() == after;
    }

    /** An edit of a field outside the growing fieldsets. It breaks exactly the fieldsets
        without answers that a field comes in beside. */
    method OnUpdatePlainField(name: string, value: string, fieldType: string)
      requires Valid()
      modifies this
      ensures changes && Valid() && Current() == Step(spec, old(Current()), EditPlain(name, value, fieldType))
      ensures Broken(spec, Current()) ==
        BrokenAfter(spec, HiddenNow(spec, old(answers)), Write(old(answers), Update(Plain(name), value, fieldType)),
                    Broken(spec, old(Current())))
    {
      ghost var before, ev := Current(), EditPlain(name, value, fieldType);
      StepBreaksExactly(spec, before, ev);
      PlainWriteKeepsReady(spec, before, ev);
      answers := WriteChildValue(answers, Plain(name), Flat(value), fieldType);
      assert Current() == before.(answers := PlainWritten(before, ev));
      ApplyRulesToForm();
      changes := true;
    }

    /** Writes the worklist through the form specification, whose only row is the
        prototype. */
    method WriteAnswers(fs: string, us: seq<Update>)
      requires forall u | u in us :: u.id.Leaf? && u.id.fs == fs
      modifies this`answers
      ensures answers == WriteAll(old(answers), us)
    {
      for i := 0 to |us|
        invariant WriteAll(answers, us[i..]) == WriteAll(old(answers), us)
      {
        assert us[i] in us && us[i..][1..] == us[i + 1..];
        answers := WriteInRow(answers, fs, Row(fs, us[i].id.index), us[i]);
      }
    }

    /** Gives the first row the prototype's ids and required flags and moves its answers
        there. */
    method EnsureFirstChildIsRequired(fs: string)
      requires fs in spec.sets && fs in sets && RowsOk(spec.sets[fs], sets[fs]) && SpecOk(spec.sets[fs]) && spec.sets[fs].fs == fs
      modifies this`sets, this`answers
      ensures sets == old(sets)[fs := FirstRowRows(spec.sets[fs], old(sets[fs]))]
      ensures forall u | u in MovedAnswers(spec.sets[fs], old(sets[fs])[0], old(answers), 0) :: u.id.Leaf?
      ensures answers == FirstRowAnswers(spec.sets[fs], old(sets[fs])[0], old(answers))
    {
      var sp, rows := spec.sets[fs], sets[fs];
      MovedAnswersAreLeaves(sp, rows[0], answers, 0);
      var answersToWrite := CollectAnswersToWrite(sp, rows[0], answers);
      answers := DeleteRow(answers, fs, Row(fs, rows[0].index));
      var moved := MutateIdsToMatchPrototype(sp, rows[0]);
      WriteAnswers(fs, answersToWrite);
      FirstRowRowsOk(sp, rows);
      sets := sets[fs := SortRows([moved] + rows[1..])];
      var thrown := ValidateFields(fs, 0, Fieldset(fs));
    }

    /** Deletes the row's answers and the row, and makes the first row left the prototype. */
    method RemoveRowOf(fs: string, a: nat)
      requires fs in spec.sets && fs in sets && RowsOk(spec.sets[fs], sets[fs]) && SpecOk(spec.sets[fs]) && spec.sets[fs].fs == fs
      requires a < |sets[fs]| - 2
      modifies this`sets, this`answers
      ensures var rows := old(sets[fs]); var left := RemoveRows(rows, rows[a].index);
        && left != [] && |left[0].nodes| == |spec.sets[fs].leaves|
        && sets == old(sets)[fs := FirstRowRows(spec.sets[fs], left)]
        && answers == RemovalAnswers(spec.sets[fs], rows, old(answers), a)
    {
      var sp, rows := spec.sets[fs], sets[fs];
      RemovedRowsShape(sp, rows, a);
      answers := DeleteRow(answers, fs, Row(fs, rows[a].index));
      var left := RemoveChild(rows, rows[a].index);
      sets := sets[fs := left];
      EnsureFirstChildIsRequired(fs);
    }

    method RemoveEnabledRow(fs: string, a: nat)
      requires Valid() && Enabled(spec, Current(), RemoveRow(fs, a))
      modifies this`sets, this`answers
      ensures Current() == Step(spec, old(Current()), RemoveRow(fs, a))
    {
      RemovalStarts(spec, Current(), fs, a);
      RemovalStep(spec, Current(), RemoveRow(fs, a));
      RemoveRowOf(fs, a);
    }

    /** The removal of row a of a growing fieldset. */
    method OnRemoveField(fs: string, a: nat)
      requires Valid() && Enabled(spec, Current(), RemoveRow(fs, a))
      modifies this
      ensures changes && Valid() && SamelyBroken(spec, old(Current()), Current())
      ensures Current() == Step(spec, old(Current()), RemoveRow(fs, a))
    {
      ghost var after := Step(spec, Current(), RemoveRow(fs, a));
      RemoveRowOk(spec, Current(), RemoveRow(fs, a));
      RemoveEnabledRow(fs, a);
      changes := true;
      assert Current() == after;
    }
  }
}
