/** A form on the page: its tree, the rows of its growing fieldsets and its answers, and
    what rules do to all three. */
module FormPage {
  import opened FieldIdentity
  import opened Options
  import opened Texts
  import FormTree
  import TreeLaws
  import SiblingOrder
  import Rules = FormRules
  import Laws = RuleLaws
  import opened AnswerStore
  import opened GrowingFieldset
  import opened GrowingInvariant

  type Tree = FormTree.Field

  /** The tree of the form, in which growing fieldsets are leaves, its rules, and its
      growing fieldsets with their row prototypes. */
  datatype Specification = Specification(content: seq<Tree>, rules: seq<Rules.Rule>, sets: map<string, SetSpec>)

  /** The tree on the page, the rows of every growing fieldset in it, and the answers. */
  datatype State = State(form: seq<Tree>, sets: map<string, seq<RowState>>, answers: seq<Entry>)

  predicate IsInclude(rule: Rules.Rule) {
    rule.ruleType == "includeIf"
  }

  function Targets(rules: seq<Rules.Rule>): set<string> {
    set i, id | 0 <= i < |rules| && IsInclude(rules[i]) && id in rules[i].targetIds :: id
  }

  /** No field is a target of two rules. */
  ghost predicate TargetsOnce(rules: seq<Rules.Rule>) {
    forall i, j | 0 <= i < j < |rules| && IsInclude(rules[i]) && IsInclude(rules[j]) ::
      forall id | id in rules[i].targetIds :: id !in rules[j].targetIds
  }

  ghost predicate SetsSpecified(spec: Specification) {
    forall fs | fs in spec.sets :: spec.sets[fs].fs == fs && Usable(spec.sets[fs])
  }

  ghost predicate SpecificationOk(spec: Specification) {
    SetsSpecified(spec) && Laws.Ruled(spec.content, Targets(spec.rules)) && TargetsOnce(spec.rules)
  }

  /** The growing fieldsets in a part of the tree. */
  function SetsIn(spec: Specification, trees: seq<Tree>): set<string> {
    spec.sets.Keys * FormTree.Ids(trees)
  }

  /** The growing-row invariant of one fieldset on the page. */
  ghost predicate SetOk(spec: Specification, st: State, fs: string) {
    fs in spec.sets && fs in st.sets && Inv(spec.sets[fs], st.sets[fs], SetView(st.answers, fs))
  }

  /** Answers that can be rendered: laid out as the form, complete, at or after the
      prototype's index. */
  ghost predicate Loadable(spec: Specification, saved: seq<Entry>) {
    Placed(saved) && forall fs | fs in spec.sets :: Renderable(spec.sets[fs], SetView(saved, fs))
  }

  /** Every growing fieldset of the tree has rows. */
  ghost predicate SetsThere(spec: Specification, st: State) {
    && Placed(st.answers) && st.sets.Keys == SetsIn(spec, st.form)
    && forall fs | fs in st.sets :: st.sets[fs] != []
  }

  /** Every growing fieldset of the tree has rows, of which the last is disabled and
      requires nothing. */
  ghost predicate SetsReady(spec: Specification, st: State) {
    SetsThere(spec, st) && forall fs | fs in st.sets :: Ready(st.sets[fs])
  }

  predicate Ready(rows: seq<RowState>) {
    |rows| >= 2 && rows[|rows| - 1].disabled && Waiting(rows[|rows| - 1])
  }

  // ----------------------------------------------------------------- rendering again

  /** The rows of a fieldset as they are, or as the specification has them. */
  function RowsNow(spec: Specification, sets: map<string, seq<RowState>>, fs: string): seq<RowState>
    requires fs in spec.sets
  {
    if fs in sets then sets[fs] else [PrototypeRow(spec.sets[fs])]
  }

  ghost function RenderedSet(spec: Specification, sets: map<string, seq<RowState>>, answers: seq<Entry>, fs: string): seq<RowState>
    requires Placed(answers) && fs in spec.sets && (fs in sets ==> sets[fs] != [])
  {
    RowsOfPlaced(answers, fs);
    Rendered(spec.sets[fs], RowsNow(spec, sets, fs), RowsOf(answers, fs))
  }

  /** The fieldsets under a target's parent once the target has been put in: all of them
      are rendered. */
  function SetsBeside(spec: Specification, form: seq<Tree>, id: string): set<string>
    requires FormTree.FindParent(spec.content, id).Some?
  {
    var parent := FormTree.Find(form, FormTree.FindParent(spec.content, id).value.id);
    if parent.Some? then SetsIn(spec, FormTree.Kids(parent.value)) else {}
  }

  /** One target of one rule, with the rendering that putting it in brings along. */
  ghost function IncludeOrRemove(spec: Specification, st: State, id: string, doInclude: bool): State
    requires FormTree.FindParent(spec.content, id).Some? && SetsThere(spec, st)
  {
    if !Rules.Toggles(spec.content, st.form, id, doInclude) then st
    else
      var form := Rules.IncludeOrRemove(spec.content, st.form, id, doInclude);
      var rendered := if doInclude then SetsBeside(spec, form, id) else {};
      State(form,
            map fs | fs in SetsIn(spec, form) ::
              if fs in rendered then RenderedSet(spec, st.sets, st.answers, fs) else RowsNow(spec, st.sets, fs),
            st.answers)
  }

  lemma {:induction false} ChangedWithin(fs: seq<Tree>, p: string, kids: seq<Tree>)
    ensures FormTree.Ids(FormTree.WithChildren(fs, p, kids)) <= FormTree.Ids(fs) + FormTree.Ids(kids)
  {
    if fs != [] {
      ChangedWithin(fs[1..], p, kids);
      if fs[0].Branch? { ChangedWithin(fs[0].children, p, kids); }
    }
  }

  lemma {:induction false} RemovedWithin(fs: seq<Tree>, id: string)
    ensures FormTree.Ids(FormTree.RemoveById(fs, id)) <= FormTree.Ids(fs)
  {
    if fs != [] { RemovedWithin(fs[1..], id); }
  }

  /** A field that comes onto the page comes beside the target. */
  lemma NewSetsAreBeside(spec: Specification, form: seq<Tree>, id: string, doInclude: bool)
    requires FormTree.FindParent(spec.content, id).Some? && Rules.Toggles(spec.content, form, id, doInclude)
    ensures var after := Rules.IncludeOrRemove(spec.content, form, id, doInclude);
      SetsIn(spec, after) <= SetsIn(spec, form) + if doInclude then SetsBeside(spec, after, id) else {}
  {
    var specParent := FormTree.FindParent(spec.content, id).value;
    var parent := FormTree.Find(form, specParent.id).value;
    var kids := Rules.ChildrenWith(specParent, parent.children, id, doInclude);
    ChangedWithin(form, specParent.id, kids);
    TreeLaws.FindChanged(form, specParent.id, kids);
    if !doInclude {
      RemovedWithin(parent.children, id);
      TreeLaws.FoundIsBelow(form, specParent.id);
      TreeLaws.BelowIsInside(form);
    }
  }

  lemma RenderedIsReady(spec: Specification, sets: map<string, seq<RowState>>, answers: seq<Entry>, fs: string)
    requires Placed(answers) && fs in spec.sets && (fs in sets ==> sets[fs] != [])
    ensures Ready(RenderedSet(spec, sets, answers, fs))
  {
    RowsOfPlaced(answers, fs);
    PlaceholdersAreReady(spec.sets[fs], RowsNow(spec, sets, fs), RowsOf(answers, fs));
  }

  lemma PlaceholdersAreReady(sp: SetSpec, rows: seq<RowState>, setValue: seq<Entry>)
    requires rows != [] && RowKeys(setValue)
    ensures Ready(Rendered(sp, rows, setValue))
  {
  }

  lemma TargetKeepsSets(spec: Specification, st: State, id: string, doInclude: bool)
    requires FormTree.FindParent(spec.content, id).Some? && SetsThere(spec, st)
    ensures var after := IncludeOrRemove(spec, st, id, doInclude);
      && SetsThere(spec, after) && (SetsReady(spec, st) ==> SetsReady(spec, after)) && after.answers == st.answers
      && after.form == Rules.IncludeOrRemove(spec.content, st.form, id, doInclude)
  {
    if Rules.Toggles(spec.content, st.form, id, doInclude) {
      NewSetsAreBeside(spec, st.form, id, doInclude);
      var after := IncludeOrRemove(spec, st, id, doInclude);
      forall fs | fs in after.sets
        ensures after.sets[fs] != [] && (SetsReady(spec, st) ==> Ready(after.sets[fs]))
      {
        if doInclude && fs in SetsBeside(spec, after.form, id) { RenderedIsReady(spec, st.sets, st.answers, fs); }
      }
    }
  }

  ghost function ApplyTargets(spec: Specification, st: State, ids: seq<string>, doInclude: bool): State
    requires Rules.TargetsOk(spec.content, ids) && SetsThere(spec, st)
    decreases |ids|
  {
    if ids == [] then st
    else
      TargetKeepsSets(spec, st, ids[0], doInclude);
      ApplyTargets(spec, IncludeOrRemove(spec, st, ids[0], doInclude), ids[1..], doInclude)
  }

  lemma {:induction false} TargetsKeepSets(spec: Specification, st: State, ids: seq<string>, doInclude: bool)
    requires Rules.TargetsOk(spec.content, ids) && SetsThere(spec, st)
    ensures var after := ApplyTargets(spec, st, ids, doInclude);
      && SetsThere(spec, after) && (SetsReady(spec, st) ==> SetsReady(spec, after)) && after.answers == st.answers
      && after.form == Rules.ApplyTargets(spec.content, st.form, ids, doInclude)
    decreases |ids|
  {
    if ids != [] {
      TargetKeepsSets(spec, st, ids[0], doInclude);
      TargetsKeepSets(spec, IncludeOrRemove(spec, st, ids[0], doInclude), ids[1..], doInclude);
    }
  }

  ghost function ApplyRules(spec: Specification, st: State, rules: seq<Rules.Rule>): State
    requires Rules.RulesOk(spec.content, rules) && SetsThere(spec, st)
    decreases |rules|
  {
    if rules == [] then st
    else if !IsInclude(rules[0]) then ApplyRules(spec, st, rules[1..])
    else
      var shows := Laws.Includes(rules[0], PlainView(st.answers));
      TargetsKeepSets(spec, st, rules[0].targetIds, shows);
      ApplyRules(spec, ApplyTargets(spec, st, rules[0].targetIds, shows), rules[1..])
  }

  lemma {:induction false} RulesKeepSets(spec: Specification, st: State, rules: seq<Rules.Rule>)
    requires Rules.RulesOk(spec.content, rules) && SetsThere(spec, st)
    ensures var after := ApplyRules(spec, st, rules);
      && SetsThere(spec, after) && (SetsReady(spec, st) ==> SetsReady(spec, after)) && after.answers == st.answers
      && after.form == Rules.ApplyRules(spec.content, st.form, rules, PlainView(st.answers))
    decreases |rules|
  {
    if rules != [] {
      if IsInclude(rules[0]) {
        var shows := Laws.Includes(rules[0], PlainView(st.answers));
        TargetsKeepSets(spec, st, rules[0].targetIds, shows);
        RulesKeepSets(spec, ApplyTargets(spec, st, rules[0].targetIds, shows), rules[1..]);
      } else {
        RulesKeepSets(spec, st, rules[1..]);
      }
    }
  }

  // -------------------------------------------------------- which fieldsets it spoils

  function Unanswered(answers: seq<Entry>, sets: set<string>): set<string> {
    set fs | fs in sets && RowsOf(answers, fs) == []
  }

  /** The spoiled fieldsets on the page, after one target: those without answers that were
      on the page already, beside a target that is put in, join them. */
  function SpoiledByTarget(spec: Specification, form: seq<Tree>, answers: seq<Entry>, id: string, doInclude: bool, spoiled: set<string>): set<string>
    requires FormTree.FindParent(spec.content, id).Some?
  {
    if !Rules.Toggles(spec.content, form, id, doInclude) then spoiled
    else
      var after := Rules.IncludeOrRemove(spec.content, form, id, doInclude);
      var again := if doInclude then SetsBeside(spec, after, id) * SetsIn(spec, form) else {};
      (spoiled + Unanswered(answers, again)) * SetsIn(spec, after)
  }

  function SpoiledByTargets(spec: Specification, form: seq<Tree>, answers: seq<Entry>, ids: seq<string>, doInclude: bool, spoiled: set<string>): set<string>
    requires Rules.TargetsOk(spec.content, ids)
    decreases |ids|
  {
    if ids == [] then spoiled
    else
      SpoiledByTargets(spec, Rules.IncludeOrRemove(spec.content, form, ids[0], doInclude), answers, ids[1..], doInclude,
                       SpoiledByTarget(spec, form, answers, ids[0], doInclude, spoiled))
  }

  /** The fieldsets that applying the rules leaves spoiled, told from the tree and the
      answers alone. */
  function SpoiledByRules(spec: Specification, form: seq<Tree>, answers: seq<Entry>, rules: seq<Rules.Rule>, spoiled: set<string>): set<string>
    requires Rules.RulesOk(spec.content, rules)
    decreases |rules|
  {
    if rules == [] then spoiled
    else if !IsInclude(rules[0]) then SpoiledByRules(spec, form, answers, rules[1..], spoiled)
    else
      var shows := Laws.Includes(rules[0], PlainView(answers));
      SpoiledByRules(spec, Rules.ApplyTargets(spec.content, form, rules[0].targetIds, shows), answers, rules[1..],
                     SpoiledByTargets(spec, form, answers, rules[0].targetIds, shows, spoiled))
  }

  /** A row before the last is disabled. */
  predicate Stuck(rows: seq<RowState>) {
    exists a :: 0 <= a < |rows| - 1 && rows[a].disabled
  }

  /** Exactly the spoiled fieldsets on the page break the growing-row invariant; they have
      no answers, and a disabled row in the middle. */
  ghost predicate SpoiledExactly(spec: Specification, st: State, spoiled: set<string>) {
    && SetsReady(spec, st) && SetsSpecified(spec) && Loadable(spec, st.answers)
    && spoiled <= st.sets.Keys && (forall fs | fs in spoiled :: RowsOf(st.answers, fs) == [] && Stuck(st.sets[fs]))
    && forall fs | fs in st.sets :: SetOk(spec, st, fs) <==> fs !in spoiled
  }

  lemma RenderedSetOk(spec: Specification, st: State, fs: string)
    requires SetsReady(spec, st) && SetsSpecified(spec) && Loadable(spec, st.answers) && fs in spec.sets
    ensures Inv(spec.sets[fs], RenderedSet(spec, st.sets, st.answers, fs), SetView(st.answers, fs)) <==>
      fs !in st.sets || RowsOf(st.answers, fs) != []
    ensures fs in st.sets && RowsOf(st.answers, fs) == [] ==> Stuck(RenderedSet(spec, st.sets, st.answers, fs))
  {
    if fs in st.sets {
      var sp, rows := spec.sets[fs], st.sets[fs];
      assert Ready(rows) && sp.fs == fs;
      RenderingAgainIff(sp, rows, st.answers);
      if RowsOf(st.answers, fs) == [] { RenderedIsStuck(sp, rows); }
    } else {
      InitialRenderEstablishes(spec.sets[fs], st.answers);
    }
  }

  lemma RenderedIsStuck(sp: SetSpec, rows: seq<RowState>)
    requires Ready(rows)
    ensures Stuck(Rendered(sp, rows, []))
  {
    DisabledStays(sp, rows, []);
    var r := Rendered(sp, rows, []);
    assert r[|rows| - 1] == r[..|rows|][|rows| - 1];
  }

  /** Whatever its rows are, a fieldset that has answers is well again when a target comes
      in beside it. */
  lemma AnsweredIsMended(spec: Specification, st: State, id: string, fs: string)
    requires SetsReady(spec, st) && SetsSpecified(spec) && Loadable(spec, st.answers)
    requires FormTree.FindParent(spec.content, id).Some? && Rules.Toggles(spec.content, st.form, id, true)
    requires fs in SetsBeside(spec, Rules.IncludeOrRemove(spec.content, st.form, id, true), id) && RowsOf(st.answers, fs) != []
    ensures fs in IncludeOrRemove(spec, st, id, true).sets ==> SetOk(spec, IncludeOrRemove(spec, st, id, true), fs)
  {
    RenderedSetOk(spec, st, fs);
  }

  lemma TargetSpoils(spec: Specification, st: State, id: string, doInclude: bool, spoiled: set<string>)
    requires FormTree.FindParent(spec.content, id).Some? && SpoiledExactly(spec, st, spoiled)
    ensures SpoiledExactly(spec, IncludeOrRemove(spec, st, id, doInclude), SpoiledByTarget(spec, st.form, st.answers, id, doInclude, spoiled))
  {
    TargetKeepsSets(spec, st, id, doInclude);
    if Rules.Toggles(spec.content, st.form, id, doInclude) {
      var after, more := IncludeOrRemove(spec, st, id, doInclude), SpoiledByTarget(spec, st.form, st.answers, id, doInclude, spoiled);
      NewSetsAreBeside(spec, st.form, id, doInclude);
      forall fs | fs in after.sets ensures (SetOk(spec, after, fs) <==> fs !in more) && (fs in more ==> Stuck(after.sets[fs])) {
        if doInclude && fs in SetsBeside(spec, after.form, id) { RenderedSetOk(spec, st, fs); }
        else { assert fs in st.sets && (SetOk(spec, st, fs) <==> fs !in spoiled); }
      }
    }
  }

  lemma {:induction false} TargetsSpoil(spec: Specification, st: State, ids: seq<string>, doInclude: bool, spoiled: set<string>)
    requires Rules.TargetsOk(spec.content, ids) && SpoiledExactly(spec, st, spoiled)
    ensures SpoiledExactly(spec, ApplyTargets(spec, st, ids, doInclude), SpoiledByTargets(spec, st.form, st.answers, ids, doInclude, spoiled))
    decreases |ids|
  {
    if ids != [] {
      TargetSpoils(spec, st, ids[0], doInclude, spoiled);
      TargetKeepsSets(spec, st, ids[0], doInclude);
      TargetsSpoil(spec, IncludeOrRemove(spec, st, ids[0], doInclude), ids[1..], doInclude,
                   SpoiledByTarget(spec, st.form, st.answers, ids[0], doInclude, spoiled));
    }
  }

  /** Applying rules breaks the growing-row invariant of exactly the fieldsets that it spoils. */
  lemma {:induction false} RulesSpoil(spec: Specification, st: State, rules: seq<Rules.Rule>, spoiled: set<string>)
    requires Rules.RulesOk(spec.content, rules) && SpoiledExactly(spec, st, spoiled)
    ensures SpoiledExactly(spec, ApplyRules(spec, st, rules), SpoiledByRules(spec, st.form, st.answers, rules, spoiled))
    decreases |rules|
  {
    if rules != [] {
      if IsInclude(rules[0]) {
        var shows := Laws.Includes(rules[0], PlainView(st.answers));
        TargetsSpoil(spec, st, rules[0].targetIds, shows, spoiled);
        TargetsKeepSets(spec, st, rules[0].targetIds, shows);
        RulesSpoil(spec, ApplyTargets(spec, st, rules[0].targetIds, shows), rules[1..],
                   SpoiledByTargets(spec, st.form, st.answers, rules[0].targetIds, shows, spoiled));
      } else {
        RulesSpoil(spec, st, rules[1..], spoiled);
      }
    }
  }

  /** What one rule does is nothing to the targets of later rules. */
  lemma HiddenLater(spec: Specification, rule: Rules.Rule, i: nat, shows: bool, hidden: set<string>)
    requires TargetsOnce(spec.rules) && i < |spec.rules| && rule == spec.rules[i] && IsInclude(rule) && hidden <= Targets(spec.rules)
    ensures var after := Laws.HiddenAfterTargets(rule.targetIds, shows, hidden);
      && after <= Targets(spec.rules)
      && forall j, id | i < j < |spec.rules| && IsInclude(spec.rules[j]) && id in spec.rules[j].targetIds ::
           id in after <==> id in hidden
  {
  }

  // --------------------------------------------------------------- opening a form

  /** A tree whose growing fieldsets have the row of their specification only. */
  ghost function Unrendered(spec: Specification, form: seq<Tree>, answers: seq<Entry>): State {
    State(form, map fs | fs in SetsIn(spec, form) :: [PrototypeRow(spec.sets[fs])], answers)
  }

  lemma TakingOutRendersNothing(spec: Specification, form: seq<Tree>, answers: seq<Entry>, id: string)
    requires FormTree.FindParent(spec.content, id).Some? && Placed(answers)
    ensures IncludeOrRemove(spec, Unrendered(spec, form, answers), id, false) ==
      Unrendered(spec, Rules.IncludeOrRemove(spec.content, form, id, false), answers)
  {
  }

  lemma {:induction false} TargetsRenderNothing(spec: Specification, form: seq<Tree>, answers: seq<Entry>, hidden: set<string>, ids: seq<string>, doInclude: bool)
    requires SpecificationOk(spec) && SiblingOrder.SameTrees(form, Laws.Pruned(spec.content, hidden)) && hidden <= Targets(spec.rules)
    requires Placed(answers) && forall id | id in ids :: id in Targets(spec.rules) && (doInclude ==> id !in hidden)
    ensures Rules.TargetsOk(spec.content, ids)
    ensures ApplyTargets(spec, Unrendered(spec, form, answers), ids, doInclude) ==
      Unrendered(spec, Rules.ApplyTargets(spec.content, form, ids, doInclude), answers)
    decreases |ids|
  {
    if ids != [] {
      var targets, h2 := Targets(spec.rules), if doInclude then hidden - {ids[0]} else hidden + {ids[0]};
      Laws.TargetFinds(spec.content, targets, hidden, form, ids[0], false);
      Laws.TargetStep(spec.content, targets, hidden, form, ids[0], doInclude, false);
      TakingOutRendersNothing(spec, form, answers, ids[0]);
      TargetsRenderNothing(spec, Rules.IncludeOrRemove(spec.content, form, ids[0], doInclude), answers, h2, ids[1..], doInclude);
    }
  }

  /** On the tree of the specification the rules only take fields out, so that nothing is
      rendered before its time. */
  lemma {:induction false} RulesRenderNothing(spec: Specification, form: seq<Tree>, answers: seq<Entry>, hidden: set<string>, i: nat)
    requires SpecificationOk(spec) && SiblingOrder.SameTrees(form, Laws.Pruned(spec.content, hidden)) && hidden <= Targets(spec.rules)
    requires Placed(answers) && i <= |spec.rules|
    requires forall j, id | i <= j < |spec.rules| && IsInclude(spec.rules[j]) && id in spec.rules[j].targetIds :: id !in hidden
    ensures Rules.RulesOk(spec.content, spec.rules[i..])
    ensures ApplyRules(spec, Unrendered(spec, form, answers), spec.rules[i..]) ==
      Unrendered(spec, Rules.ApplyRules(spec.content, form, spec.rules[i..], PlainView(answers)), answers)
    decreases |spec.rules| - i
  {
    RulesAreTargeted(spec);
    if i < |spec.rules| {
      var rule := spec.rules[i];
      assert spec.rules[i..][0] == rule && spec.rules[i..][1..] == spec.rules[i + 1..];
      if IsInclude(rule) {
        var shows := Laws.Includes(rule, PlainView(answers));
        RuleRendersNothing(spec, form, answers, hidden, i, shows);
        RulesRenderNothing(spec, Rules.ApplyTargets(spec.content, form, rule.targetIds, shows), answers,
                           Laws.HiddenAfterTargets(rule.targetIds, shows, hidden), i + 1);
      } else {
        RulesRenderNothing(spec, form, answers, hidden, i + 1);
      }
    }
  }

  lemma RuleRendersNothing(spec: Specification, form: seq<Tree>, answers: seq<Entry>, hidden: set<string>, i: nat, shows: bool)
    requires SpecificationOk(spec) && SiblingOrder.SameTrees(form, Laws.Pruned(spec.content, hidden)) && hidden <= Targets(spec.rules)
    requires Placed(answers) && i < |spec.rules| && IsInclude(spec.rules[i])
    requires forall j, id | i <= j < |spec.rules| && IsInclude(spec.rules[j]) && id in spec.rules[j].targetIds :: id !in hidden
    ensures Rules.TargetsOk(spec.content, spec.rules[i].targetIds)
    ensures var ids := spec.rules[i].targetIds;
      var next, after := Rules.ApplyTargets(spec.content, form, ids, shows), Laws.HiddenAfterTargets(ids, shows, hidden);
      && ApplyTargets(spec, Unrendered(spec, form, answers), ids, shows) == Unrendered(spec, next, answers)
      && SiblingOrder.SameTrees(next, Laws.Pruned(spec.content, after)) && after <= Targets(spec.rules)
      && forall j, id | i < j < |spec.rules| && IsInclude(spec.rules[j]) && id in spec.rules[j].targetIds :: id !in after
  {
    RulesAreTargeted(spec);
    TargetsRenderNothing(spec, form, answers, hidden, spec.rules[i].targetIds, shows);
    HiddenLater(spec, spec.rules[i], i, shows, hidden);
    Laws.TargetsStep(spec.content, Targets(spec.rules), hidden, form, spec.rules[i].targetIds, shows, false);
  }

  // ------------------------------------------------------------ when rules are at rest

  function HiddenNow(spec: Specification, answers: seq<Entry>): set<string> {
    Laws.HiddenBy(spec.rules, PlainView(answers), Targets(spec.rules))
  }

  /** The tree is, but for the order of siblings, the specification without the fields that
      the answers hide. */
  ghost predicate Settled(spec: Specification, st: State) {
    SiblingOrder.SameTrees(st.form, Laws.Pruned(spec.content, HiddenNow(spec, st.answers)))
  }

  lemma RulesAreTargeted(spec: Specification)
    requires SpecificationOk(spec)
    ensures Laws.TargetedOnly(spec.rules, Targets(spec.rules)) && Laws.AllTargeted(spec.rules, Targets(spec.rules))
    ensures Rules.RulesOk(spec.content, spec.rules)
  {
    Laws.RulesAreOk(spec.content, Targets(spec.rules), spec.rules);
  }

  lemma {:induction false} OneRuleDecides(rules: seq<Rules.Rule>, answers: TextMap, i: nat, id: string, otherwise: bool)
    requires TargetsOnce(rules) && i < |rules| && IsInclude(rules[i]) && id in rules[i].targetIds
    ensures Laws.Hides(rules, answers, id, otherwise) == !Laws.Includes(rules[i], answers)
  {
    if i < |rules| - 1 {
      assert rules[..|rules| - 1][i] == rules[i];
      OneRuleDecides(rules[..|rules| - 1], answers, i, id, otherwise);
    }
  }

  /** On a settled tree no target is toggled. */
  lemma TargetIsAtRest(spec: Specification, st: State, i: nat, id: string)
    requires SpecificationOk(spec) && Settled(spec, st)
    requires i < |spec.rules| && IsInclude(spec.rules[i]) && id in spec.rules[i].targetIds
    ensures FormTree.FindParent(spec.content, id).Some?
    ensures !Rules.Toggles(spec.content, st.form, id, Laws.Includes(spec.rules[i], PlainView(st.answers)))
  {
    assert id in Targets(spec.rules);
    Laws.TargetFinds(spec.content, Targets(spec.rules), HiddenNow(spec, st.answers), st.form, id, false);
    OneRuleDecides(spec.rules, PlainView(st.answers), i, id, false);
  }

  lemma {:induction false} TargetsAreAtRest(spec: Specification, st: State, i: nat, k: nat)
    requires SpecificationOk(spec) && Settled(spec, st) && SetsReady(spec, st)
    requires i < |spec.rules| && IsInclude(spec.rules[i]) && k <= |spec.rules[i].targetIds|
    ensures Rules.TargetsOk(spec.content, spec.rules[i].targetIds[k..])
    ensures ApplyTargets(spec, st, spec.rules[i].targetIds[k..], Laws.Includes(spec.rules[i], PlainView(st.answers))) == st
    decreases |spec.rules[i].targetIds| - k
  {
    var ids := spec.rules[i].targetIds;
    RulesAreTargeted(spec);
    if k < |ids| {
      TargetIsAtRest(spec, st, i, ids[k]);
      TargetsAreAtRest(spec, st, i, k + 1);
      assert ids[k..][0] == ids[k] && ids[k..][1..] == ids[k + 1..];
    }
  }

  /** On a settled tree applying the rules does nothing. */
  lemma {:induction false} RulesAreAtRest(spec: Specification, st: State, i: nat)
    requires SpecificationOk(spec) && Settled(spec, st) && SetsReady(spec, st) && i <= |spec.rules|
    ensures Rules.RulesOk(spec.content, spec.rules[i..])
    ensures ApplyRules(spec, st, spec.rules[i..]) == st
    decreases |spec.rules| - i
  {
    RulesAreTargeted(spec);
    if i < |spec.rules| {
      RulesAreAtRest(spec, st, i + 1);
      assert spec.rules[i..][0] == spec.rules[i] && spec.rules[i..][1..] == spec.rules[i + 1..];
      if IsInclude(spec.rules[i]) {
        TargetsAreAtRest(spec, st, i, 0);
        assert spec.rules[i].targetIds[0..] == spec.rules[i].targetIds;
      }
    }
  }

  /** Applying the rules settles the tree, whatever was hidden before. */
  lemma RulesSettle(spec: Specification, st: State, before: seq<Entry>)
    requires SpecificationOk(spec) && SetsReady(spec, st) && Settled(spec, st.(answers := before))
    ensures Rules.RulesOk(spec.content, spec.rules)
    ensures Settled(spec, ApplyRules(spec, st, spec.rules))
  {
    RulesAreTargeted(spec);
    RulesKeepSets(spec, st, spec.rules);
    Laws.RulesForgetThePast(spec.content, Targets(spec.rules), HiddenNow(spec, before), st.form, spec.rules, PlainView(st.answers), false);
  }
}
