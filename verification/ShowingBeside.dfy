/** The smallest form on which an answer breaks a growing fieldset. */
module ShowingBeside {
  import opened FieldIdentity
  import opened Options
  import opened Texts
  import FormTree
  import Rules = FormRules
  import Laws = RuleLaws
  import opened AnswerStore
  import opened GrowingFieldset
  import opened GrowingInvariant
  import opened FormPage
  import opened FormRuns

  function SmallRule(t: string, x: string): Rules.Rule {
    Rules.Rule("includeIf", t, "yes", [x])
  }

  function SmallPart(p: string, kids: seq<Tree>): Tree {
    FormTree.Branch(p, "theme", kids)
  }

  /** Question t shows field x beside the growing fieldset g in part p. */
  function SmallForm(t: string, p: string, x: string, sp: SetSpec): Specification {
    var content := [FormTree.Leaf(t, "radioButton"), SmallPart(p, [FormTree.Leaf(sp.fs, "growingFieldset"), FormTree.Leaf(x, "fieldset")])];
    Specification(content, [SmallRule(t, x)], map[sp.fs := sp])
  }

  predicate SmallNames(t: string, p: string, g: string, x: string) {
    t != p && t != g && t != x && p != g && p != x && g != x
  }

  lemma SmallKids(g: string, x: string)
    requires g != x
    ensures var kids := [FormTree.Leaf(g, "growingFieldset"), FormTree.Leaf(x, "fieldset")];
      && FormTree.Ids(kids) == {g, x} && FormTree.Unique(kids) && Laws.Independent(kids, {x})
      && FormTree.Find(kids, x) == Some(kids[1]) && FormTree.RemoveById(kids, x) == [kids[0]]
      && FormTree.HasChild(kids, x)
  {
    var g, f := FormTree.Leaf(g, "growingFieldset"), FormTree.Leaf(x, "fieldset");
    assert [g, f][1..] == [f] && [f][1..] == [];
    assert f in [g, f];
    assert FormTree.Ids([f]) == {x} && FormTree.Unique([f]) && Laws.Independent([f], {x});
    assert FormTree.Ids([g, f]) == {g.id} + FormTree.Ids([g, f][1..]);
    assert FormTree.RemoveById([f][1..], x) == [f][1..];
    assert FormTree.RemoveById([f], x) == FormTree.RemoveById([f][1..], x);
    assert FormTree.RemoveById([g, f], x) == [g] + FormTree.RemoveById([g, f][1..], x);
  }

  lemma SmallBranch(t: string, p: string, kids: seq<Tree>)
    requires t != p && t !in FormTree.Ids(kids) && p !in FormTree.Ids(kids)
    ensures var form := [FormTree.Leaf(t, "radioButton"), SmallPart(p, kids)];
      && FormTree.Ids(form) == {t, p} + FormTree.Ids(kids)
      && (FormTree.Unique(kids) ==> FormTree.Unique(form))
      && FormTree.Find(form, p) == Some(form[1])
      && (forall id :: id in FormTree.Ids(kids) ==> FormTree.Find(form, id) == FormTree.Find(kids, id))
      && (forall id :: FormTree.HasChild(kids, id) ==> FormTree.FindParent(form, id) == Some(form[1]))
      && (forall more :: FormTree.WithChildren(form, p, more) == [form[0], SmallPart(p, more)])
      && (forall targets | Laws.Independent(kids, targets) && p !in targets :: Laws.Independent(form, targets))
  {
    var q, part := FormTree.Leaf(t, "radioButton"), SmallPart(p, kids);
    assert [q, part][1..] == [part] && [part][1..] == [];
    assert FormTree.Ids([part]) == {p} + FormTree.Ids(kids);
    assert !exists f :: f in FormTree.Kids(q) && f in FormTree.Kids(q);
    forall more ensures FormTree.WithChildren([q, part], p, more) == [q, SmallPart(p, more)] {
      assert FormTree.WithChildren([part], p, more) == [SmallPart(p, more)] + [];
    }
    forall targets | Laws.Independent(kids, targets) && p !in targets ensures Laws.Independent([q, part], targets) {
      assert Laws.Independent([part], targets);
    }
    forall id | FormTree.HasChild(kids, id) ensures FormTree.FindParent([q, part], id) == Some(part) {
      assert !FormTree.HasChild(FormTree.Kids(q), id);
      assert FormTree.FindParent([part], id) == Some(part);
    }
    assert FormTree.Find([part], p) == Some(part);
    forall id | id in FormTree.Ids(kids) ensures FormTree.Find([q, part], id) == FormTree.Find(kids, id) {
      assert FormTree.Find([part], id) == FormTree.Find(kids, id);
    }
  }

  lemma SmallSpecification(t: string, p: string, x: string, sp: SetSpec)
    requires SmallNames(t, p, sp.fs, x) && Usable(sp)
    ensures var spec := SmallForm(t, p, x, sp);
      && SpecificationOk(spec) && Loadable(spec, []) && Targets(spec.rules) == {x}
      && FormTree.FindParent(spec.content, x) == Some(spec.content[1])
  {
    var spec := SmallForm(t, p, x, sp);
    SmallKids(sp.fs, x);
    SmallBranch(t, p, spec.content[1].children);
    assert x in spec.rules[0].targetIds;
    assert Targets(spec.rules) == {x};
    assert SetView([], sp.fs) == map[];
  }

  /** The rule takes x out, and puts it in again beside g. */
  lemma SmallToggles(t: string, p: string, x: string, sp: SetSpec)
    requires SmallNames(t, p, sp.fs, x) && Usable(sp)
    ensures var spec := SmallForm(t, p, x, sp);
      var full, less := spec.content, [spec.content[0], SmallPart(p, [spec.content[1].children[0]])];
      && FormTree.FindParent(full, x).Some?
      && Rules.Toggles(full, full, x, false) && Rules.IncludeOrRemove(full, full, x, false) == less
      && Rules.Toggles(full, less, x, true)
      && SetsIn(spec, less) == {sp.fs} && SetsIn(spec, Rules.IncludeOrRemove(full, less, x, true)) == {sp.fs}
      && SetsBeside(spec, Rules.IncludeOrRemove(full, less, x, true), x) == {sp.fs}
  {
    var spec := SmallForm(t, p, x, sp);
    var full, less := spec.content, [spec.content[0], SmallPart(p, [spec.content[1].children[0]])];
    var kids := full[1].children;
    SmallKids(sp.fs, x);
    SmallBranch(t, p, kids);
    SmallBranch(t, p, [kids[0]]);
    var back := Rules.ChildrenWith(full[1], [kids[0]], x, true);
    TreeLaws.InsertedIds([kids[0]], Rules.InsertionPoint(Rules.PlaceIn(kids), [kids[0]], Rules.SpecIndex(kids, x)), kids[1]);
    assert FormTree.Ids(back) == {sp.fs, x};
    SmallBranch(t, p, back);
  }

  function SmallState(t: string, p: string, sp: SetSpec, answers: seq<Entry>): State {
    State([FormTree.Leaf(t, "radioButton"), SmallPart(p, [FormTree.Leaf(sp.fs, "growingFieldset")])], map[sp.fs := InitialRows(sp, [])], answers)
  }

  lemma SmallLoadedTree(t: string, p: string, x: string, sp: SetSpec)
    requires SmallNames(t, p, sp.fs, x) && Usable(sp)
    ensures var spec := SmallForm(t, p, x, sp);
      && Rules.RulesOk(spec.content, spec.rules)
      && Rules.ApplyRules(spec.content, spec.content, spec.rules, map[]) == SmallState(t, p, sp, []).form
  {
    var content := SmallForm(t, p, x, sp).content;
    SmallToggles(t, p, x, sp);
    OneRuleHides(content, content, SmallRule(t, x), x, map[]);
  }

  lemma OneRuleHides(content: seq<Tree>, form: seq<Tree>, rule: Rules.Rule, x: string, answers: TextMap)
    requires rule.ruleType == "includeIf" && rule.targetIds == [x] && !Laws.Includes(rule, answers)
    requires FormTree.FindParent(content, x).Some?
    ensures Rules.RulesOk(content, [rule])
    ensures Rules.ApplyRules(content, form, [rule], answers) == Rules.IncludeOrRemove(content, form, x, false)
  {
    assert [rule][1..] == [] && [x][1..] == [];
    assert Rules.ApplyTargets(content, form, [x], false) == Rules.IncludeOrRemove(content, form, x, false);
  }

  lemma SmallLoad(t: string, p: string, x: string, sp: SetSpec)
    requires SmallNames(t, p, sp.fs, x) && Usable(sp)
    ensures var spec := SmallForm(t, p, x, sp);
      SpecificationOk(spec) && Loadable(spec, []) && Load(spec, []) == SmallState(t, p, sp, [])
  {
    var spec := SmallForm(t, p, x, sp);
    SmallSpecification(t, p, x, sp);
    SmallLoadedTree(t, p, x, sp);
    SmallReady(t, p, x, sp, []);
    assert PlainView([]) == map[];
    LoadedUnanswered(spec);
    OnlySet(spec, Load(spec, []), SmallState(t, p, sp, []), sp.fs);
  }

  lemma OnlySet(spec: Specification, st: State, st2: State, fs: string)
    requires st.sets.Keys == SetsIn(spec, st.form) && st2.sets.Keys == {fs} && SetsIn(spec, st.form) == {fs}
    requires st.form == st2.form && st.answers == st2.answers && st.sets[fs] == st2.sets[fs]
    ensures st == st2
  {
    assert st.sets == st2.sets;
  }

  /** A page without answers: the rules are applied, and every fieldset is rendered as its
      prototype and its placeholders. */
  lemma LoadedUnanswered(spec: Specification)
    requires SpecificationOk(spec) && Loadable(spec, [])
    ensures Rules.RulesOk(spec.content, spec.rules)
    ensures var st := Load(spec, []);
      && st.form == Rules.ApplyRules(spec.content, spec.content, spec.rules, PlainView([]))
      && st.answers == [] && st.sets.Keys == SetsIn(spec, st.form)
      && forall fs | fs in st.sets :: st.sets[fs] == InitialRows(spec.sets[fs], [])
  {
    RulesAreTargeted(spec);
  }

  lemma SmallAnswer(t: string, x: string, fs: string)
    ensures var written := Write([], Update(Plain(t), "yes", "radioButton"));
      && Placed([]) && Placed(written) && RowsOf(written, fs) == [] && Laws.Includes(SmallRule(t, x), PlainView(written))
  {
    WritePlainMeans([], Update(Plain(t), "yes", "radioButton"));
    var e := Entry(Plain(t), Flat("yes"), "radioButton");
    assert Find([e][1..], Fieldset(fs)) == None && Find(Children(e.value), Fieldset(fs)) == None;
    assert Find([e], Fieldset(fs)) == None;
  }

  lemma SmallReady(t: string, p: string, x: string, sp: SetSpec, answers: seq<Entry>)
    requires SmallNames(t, p, sp.fs, x) && Usable(sp) && Placed(answers)
    ensures SetsReady(SmallForm(t, p, x, sp), SmallState(t, p, sp, answers))
  {
    SmallToggles(t, p, x, sp);
    UnansweredIsReady(sp);
    OneSetReady(SmallForm(t, p, x, sp), SmallState(t, p, sp, answers), sp.fs);
  }

  lemma UnansweredIsReady(sp: SetSpec)
    ensures Ready(InitialRows(sp, []))
  {
    PlaceholdersAreReady(sp, [PrototypeRow(sp)], []);
  }

  lemma OneSetReady(spec: Specification, st: State, fs: string)
    requires Placed(st.answers) && st.sets.Keys == SetsIn(spec, st.form) == {fs} && Ready(st.sets[fs])
    ensures SetsReady(spec, st)
  {
  }

  lemma SmallRendered(t: string, p: string, x: string, sp: SetSpec, answers: seq<Entry>)
    requires SmallNames(t, p, sp.fs, x) && Usable(sp) && Placed(answers) && RowsOf(answers, sp.fs) == []
    ensures var spec, st := SmallForm(t, p, x, sp), SmallState(t, p, sp, answers);
      && FormTree.FindParent(spec.content, x).Some? && SetsReady(spec, st)
      && var after := IncludeOrRemove(spec, st, x, true);
      sp.fs in after.sets && after.sets[sp.fs] == Rendered(sp, InitialRows(sp, []), [])
  {
    SmallToggles(t, p, x, sp);
    SmallReady(t, p, x, sp, answers);
  }

  lemma SmallStep(t: string, p: string, x: string, sp: SetSpec)
    requires SmallNames(t, p, sp.fs, x) && Usable(sp)
    requires StateOk(SmallForm(t, p, x, sp), SmallState(t, p, sp, []))
    ensures var spec, st, ev := SmallForm(t, p, x, sp), SmallState(t, p, sp, []), EditPlain(t, "yes", "radioButton");
      && sp.fs in Step(spec, st, ev).sets && Step(spec, st, ev).sets[sp.fs] == Rendered(sp, InitialRows(sp, []), [])
  {
    var spec, st, ev := SmallForm(t, p, x, sp), SmallState(t, p, sp, []), EditPlain(t, "yes", "radioButton");
    SmallAnswer(t, x, sp.fs);
    PlainWriteKeepsReady(spec, st, ev);
    SmallRendered(t, p, x, sp, PlainWritten(st, ev));
    OneRule(spec, st.(answers := PlainWritten(st, ev)), SmallRule(t, x), x);
  }

  /** Applying one rule with one target is putting that target in. */
  lemma OneRule(spec: Specification, st: State, rule: Rules.Rule, x: string)
    requires SetsReady(spec, st) && rule.ruleType == "includeIf" && rule.targetIds == [x] && Laws.Includes(rule, PlainView(st.answers))
    requires FormTree.FindParent(spec.content, x).Some?
    ensures Rules.RulesOk(spec.content, [rule])
    ensures ApplyRules(spec, st, [rule]) == IncludeOrRemove(spec, st, x, true)
  {
    TargetKeepsSets(spec, st, x, true);
    TargetsKeepSets(spec, st, [x], true);
    assert [rule][1..] == [] && [x][1..] == [];
    assert ApplyTargets(spec, st, [x], true) == IncludeOrRemove(spec, st, x, true);
  }

  /** On this form, answering the question breaks g: its second row, disabled, is followed
      by an enabled one. */
  lemma ShowingBesideBreaksASet(t: string, p: string, x: string, sp: SetSpec)
    requires SmallNames(t, p, sp.fs, x) && Usable(sp)
    ensures var spec := SmallForm(t, p, x, sp);
      SpecificationOk(spec) && Loadable(spec, [])
    ensures var spec := SmallForm(t, p, x, sp);
      var st, ev := Load(spec, []), EditPlain(t, "yes", "radioButton");
      && !Harmless(spec, st, ev)
      && var after := Step(spec, st, ev);
      && !StateOk(spec, after) && sp.fs in after.sets && |after.sets[sp.fs]| == 4
      && after.sets[sp.fs][1].disabled && !after.sets[sp.fs][2].disabled
  {
    var spec := SmallForm(t, p, x, sp);
    SmallLoad(t, p, x, sp);
    var st, ev := Load(spec, []), EditPlain(t, "yes", "radioButton");
    SmallStep(t, p, x, sp);
    UnansweredRenderedAgain(sp);
    assert !SetOk(spec, Step(spec, st, ev), sp.fs);
    assert sp.fs in Broken(spec, Step(spec, st, ev));
    StepOkIff(spec, st, ev);
  }
}
