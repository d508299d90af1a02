/** Which fieldsets an answer breaks, told from what was hidden before and what is hidden
    after it, without applying the rules. */
module RenderedAgain {
  import opened Options
  import opened FormTree
  import opened TreeLaws
  import opened SiblingOrder
  import Rules = FormRules
  import Laws = RuleLaws
  import AnswerStore
  import opened FormPage

  // ------------------------------------------------------------ what a field holds

  /** A field and everything inside it. */
  function Inside(content: seq<Field>, id: string): (ids: set<string>)
    ensures id in Ids(content) <==> id in ids
  {
    var f := Find(content, id);
    if f.None? then {} else OneField(f.value); Ids([f.value])
  }

  lemma OneField(f: Field)
    ensures Ids([f]) == {f.id} + Ids(Kids(f))
  {
    assert [f] == [f] + [];
    FirstAndRest(f, []);
  }

  lemma {:induction false} FoundIsInside(fs: seq<Field>, id: string)
    ensures Inside(fs, id) <= Ids(fs)
  {
    if id in Ids(fs) {
      var f, rest := fs[0], fs[1..];
      assert fs == [f] + rest;
      FirstAndRest(f, rest);
      OneField(f);
      if f.id == id {
      } else if id in Ids(Kids(f)) {
        FoundIsInside(Kids(f), id);
      } else {
        FoundIsInside(rest, id);
      }
    }
  }

  lemma InsideFirst(f: Field, rest: seq<Field>, id: string)
    requires Unique([f] + rest)
    ensures Inside([f] + rest, id) ==
      if id == f.id then Ids([f]) else if id in Ids(Kids(f)) then Inside(Kids(f), id) else Inside(rest, id)
  {
    FirstAndRest(f, rest);
    assert ([f] + rest)[1..] == rest;
  }

  /** A field is on the form if and only if no hidden field holds it. */
  lemma {:induction false} VisibleIff(fs: seq<Field>, hidden: set<string>, x: string)
    requires Unique(fs)
    ensures x in Ids(Laws.Pruned(fs, hidden)) <==> x in Ids(fs) && Free(fs, hidden, x)
    decreases fs
  {
    if fs != [] {
      var f, rest := fs[0], fs[1..];
      assert fs == [f] + rest;
      FirstAndRest(f, rest);
      if f.Branch? { VisibleIff(f.children, hidden, x); }
      VisibleIff(rest, hidden, x);
      PrunedFirst(f, rest, hidden);
      if x == f.id {
        FirstIsFree(f, rest, hidden);
      } else if x in Ids(Kids(f)) {
        KidIsFree(f, rest, hidden, x);
      } else if x in Ids(rest) {
        RestIsFree(f, rest, hidden, x);
      }
    }
  }

  ghost predicate Free(fs: seq<Field>, hidden: set<string>, x: string) {
    forall g | g in hidden :: x !in Inside(fs, g)
  }

  lemma FirstIsFree(f: Field, rest: seq<Field>, hidden: set<string>)
    requires Unique([f] + rest)
    ensures Free([f] + rest, hidden, f.id) <==> f.id !in hidden
  {
    FirstAndRest(f, rest);
    OneField(f);
    forall g | g in hidden && g != f.id ensures f.id !in Inside([f] + rest, g) {
      InsideFirst(f, rest, g);
      FoundIsInside(Kids(f), g);
      FoundIsInside(rest, g);
    }
    if f.id in hidden { InsideFirst(f, rest, f.id); }
  }

  lemma KidIsFree(f: Field, rest: seq<Field>, hidden: set<string>, x: string)
    requires Unique([f] + rest) && x in Ids(Kids(f))
    ensures Free([f] + rest, hidden, x) <==> f.id !in hidden && Free(Kids(f), hidden, x)
  {
    FirstAndRest(f, rest);
    OneField(f);
    forall g | g != f.id ensures x in Inside([f] + rest, g) <==> x in Inside(Kids(f), g) {
      InsideFirst(f, rest, g);
      FoundIsInside(rest, g);
    }
    InsideFirst(f, rest, f.id);
  }

  lemma RestIsFree(f: Field, rest: seq<Field>, hidden: set<string>, x: string)
    requires Unique([f] + rest) && x in Ids(rest)
    ensures Free([f] + rest, hidden, x) <==> Free(rest, hidden, x)
  {
    FirstAndRest(f, rest);
    OneField(f);
    forall g ensures x in Inside([f] + rest, g) <==> x in Inside(rest, g) {
      InsideFirst(f, rest, g);
      FoundIsInside(Kids(f), g);
    }
  }

  lemma PrunedFirst(f: Field, rest: seq<Field>, hidden: set<string>)
    ensures Ids(Laws.Pruned([f] + rest, hidden)) ==
      (if f.id in hidden then {} else {f.id} + Ids(Laws.Pruned(Kids(f), hidden))) + Ids(Laws.Pruned(rest, hidden))
  {
    assert ([f] + rest)[1..] == rest;
    if f.id !in hidden {
      var g := Laws.PrunedField(f, hidden);
      assert Laws.Pruned([f] + rest, hidden) == [g] + Laws.Pruned(rest, hidden);
      FirstAndRest(g, Laws.Pruned(rest, hidden));
    }
  }

  lemma {:induction false} InsideBelow(fs: seq<Field>, p: Field, id: string)
    requires Unique(fs) && Find(fs, p.id) == Some(p) && id in Ids(Kids(p))
    ensures Inside(fs, id) == Inside(Kids(p), id)
    decreases fs
  {
    var f, rest := fs[0], fs[1..];
    assert fs == [f] + rest;
    FirstAndRest(f, rest);
    InsideFirst(f, rest, id);
    if f.id != p.id {
      if f.Branch? && p.id in Ids(f.children) {
        InsideFound(f.children, p.id);
        InsideBelow(f.children, p, id);
      } else {
        InsideFound(rest, p.id);
        InsideBelow(rest, p, id);
      }
    }
  }

  /** What is free in the whole is free in a part. */
  lemma FreeBelow(fs: seq<Field>, p: Field, hidden: set<string>, x: string)
    requires Unique(fs) && Find(fs, p.id) == Some(p) && Free(fs, hidden, x)
    ensures Free(Kids(p), hidden, x)
  {
    forall g | g in hidden ensures x !in Inside(Kids(p), g) {
      if g in Ids(Kids(p)) { InsideBelow(fs, p, g); } else { FoundIsInside(Kids(p), g); }
    }
  }

  // ------------------------------------------------------------------- one target

  /** A growing fieldset is on the page while the fields with these ids are hidden. */
  ghost predicate Seen(spec: Specification, hidden: set<string>, fs: string) {
    fs in spec.sets && fs in Ids(spec.content) && Free(spec.content, hidden, fs)
  }

  /** The growing fieldsets under the parent of a target. */
  function Beside(spec: Specification, id: string): set<string>
    requires FindParent(spec.content, id).Some?
  {
    SetsIn(spec, FindParent(spec.content, id).value.children)
  }

  lemma SeenIff(spec: Specification, form: seq<Field>, hidden: set<string>, fs: string)
    requires Unique(spec.content) && SameTrees(form, Laws.Pruned(spec.content, hidden))
    ensures fs in SetsIn(spec, form) <==> Seen(spec, hidden, fs)
  {
    SameIds(form, Laws.Pruned(spec.content, hidden));
    VisibleIff(spec.content, hidden, fs);
  }

  /** The fieldsets beside a target that has just come in. */
  lemma BesideIff(spec: Specification, after: seq<Field>, hidden: set<string>, id: string, fs: string)
    requires SpecificationOk(spec) && hidden <= Targets(spec.rules) && id in Targets(spec.rules)
    requires SameTrees(after, Laws.Pruned(spec.content, hidden)) && Seen(spec, hidden, fs)
    ensures FindParent(spec.content, id).Some?
    ensures fs in SetsBeside(spec, after, id) <==> fs in Beside(spec, id)
  {
    var targets, p := Targets(spec.rules), FindParent(spec.content, id).value;
    Laws.TargetFinds(spec.content, targets, hidden, after, id, false);
    Laws.ParentOnForm(spec.content, targets, hidden, id);
    var now := Find(after, p.id).value;
    SameIds(now.children, Laws.Pruned(p.children, hidden));
    FreeBelow(spec.content, p, hidden, fs);
    VisibleIff(p.children, hidden, fs);
  }

  /** A target breaks an unanswered fieldset beside it if and only if it comes in while the
      fieldset is on the page; what is broken stays broken. */
  lemma TargetBreaks(spec: Specification, form: seq<Field>, answers: seq<AnswerStore.Entry>, hidden: set<string>, id: string, spoiled: set<string>, fs: string)
    requires SpecificationOk(spec) && hidden <= Targets(spec.rules) && id in Targets(spec.rules)
    requires SameTrees(form, Laws.Pruned(spec.content, hidden)) && (fs in spoiled ==> Seen(spec, hidden, fs))
    ensures FindParent(spec.content, id).Some?
    ensures fs in SpoiledByTarget(spec, form, answers, id, true, spoiled) <==>
      fs in spoiled || (AnswerStore.RowsOf(answers, fs) == [] && id in hidden && fs in Beside(spec, id) && Seen(spec, hidden, fs))
    ensures Seen(spec, hidden, fs) ==> Seen(spec, hidden - {id}, fs)
  {
    var targets, h2 := Targets(spec.rules), hidden - {id};
    Laws.TargetFinds(spec.content, targets, hidden, form, id, false);
    SeenIff(spec, form, hidden, fs);
    if id in hidden {
      var after := Rules.IncludeOrRemove(spec.content, form, id, true);
      Laws.TargetStep(spec.content, targets, hidden, form, id, true, false);
      SeenIff(spec, after, h2, fs);
      if Seen(spec, h2, fs) { BesideIff(spec, after, h2, id, fs); }
    }
  }

  lemma Regrouped(a: seq<string>, b: seq<string>, c: seq<string>)
    ensures a + (b + c) == a + b + c
  {
  }

  lemma FirstRegrouped(a: seq<string>, b: seq<string>)
    requires b != []
    ensures a + b == a + [b[0]] + b[1..]
  {
  }

  /** The n-th of the targets that the rules show comes in beside the fieldset, which was on
      the page already or was brought in by an earlier one. */
  ghost predicate BreaksAt(spec: Specification, hidden: set<string>, shown: seq<string>, n: nat, fs: string)
    requires n < |shown| && FindParent(spec.content, shown[n]).Some?
  {
    && shown[n] in hidden && shown[n] !in shown[..n] && fs in Beside(spec, shown[n])
    && forall g | g in hidden && fs in Inside(spec.content, g) :: g in shown[..n]
  }

  ghost predicate AllTargets(spec: Specification, shown: seq<string>) {
    forall n | 0 <= n < |shown| :: shown[n] in Targets(spec.rules) && FindParent(spec.content, shown[n]).Some?
  }

  ghost predicate BreaksFrom(spec: Specification, hidden: set<string>, shown: seq<string>, from: nat, fs: string)
    requires AllTargets(spec, shown)
  {
    exists n :: from <= n < |shown| && BreaksAt(spec, hidden, shown, n, fs)
  }

  lemma BreaksPrefix(spec: Specification, hidden: set<string>, shown: seq<string>, more: seq<string>, n: nat, fs: string)
    requires AllTargets(spec, shown + more) && n < |shown|
    ensures AllTargets(spec, shown)
    ensures BreaksAt(spec, hidden, shown + more, n, fs) <==> BreaksAt(spec, hidden, shown, n, fs)
  {
    assert forall k | 0 <= k < |shown| :: (shown + more)[k] == shown[k];
    assert (shown + more)[..n] == shown[..n];
  }

  lemma BreaksInParts(spec: Specification, hidden: set<string>, first: seq<string>, second: seq<string>, from: nat, fs: string)
    requires AllTargets(spec, first + second) && from <= |first|
    ensures AllTargets(spec, first)
    ensures BreaksFrom(spec, hidden, first + second, from, fs) <==>
      BreaksFrom(spec, hidden, first, from, fs) || BreaksFrom(spec, hidden, first + second, |first|, fs)
  {
    var all := first + second;
    assert forall k | 0 <= k < |first| :: all[k] == first[k];
    if BreaksFrom(spec, hidden, first, from, fs) {
      var n :| from <= n < |first| && BreaksAt(spec, hidden, first, n, fs);
      BreaksPrefix(spec, hidden, first, second, n, fs);
    }
    if BreaksFrom(spec, hidden, all, from, fs) {
      var n :| from <= n < |all| && BreaksAt(spec, hidden, all, n, fs);
      if n < |first| { BreaksPrefix(spec, hidden, first, second, n, fs); }
    }
  }

  /** Where the application of the rules stands: of the fields that hold the fieldset, those
      are hidden that were before and have not come in. */
  ghost predicate Midway(spec: Specification, before: set<string>, now: set<string>, done: seq<string>, fs: string) {
    && before <= Targets(spec.rules) && now <= Targets(spec.rules) && AllTargets(spec, done)
    && forall g | g in Targets(spec.rules) && fs in Inside(spec.content, g) :: g in now <==> g in before && g !in done
  }

  lemma SeenMidway(spec: Specification, before: set<string>, now: set<string>, done: seq<string>, fs: string)
    requires Midway(spec, before, now, done, fs)
    ensures Seen(spec, now, fs) <==>
      fs in spec.sets && fs in Ids(spec.content) && forall g | g in before && fs in Inside(spec.content, g) :: g in done
  {
  }

  /** The next target that is shown. */
  lemma MidwayShown(spec: Specification, before: set<string>, now: set<string>, done: seq<string>, id: string, fs: string)
    requires SpecificationOk(spec) && Midway(spec, before, now, done, fs) && id in Targets(spec.rules)
    requires id in now <==> id in before && id !in done
    ensures FindParent(spec.content, id).Some? && Midway(spec, before, now - {id}, done + [id], fs)
    ensures BreaksAt(spec, before, done + [id], |done|, fs) <==> id in now && fs in Beside(spec, id) && Seen(spec, now, fs)
  {
    var all := done + [id];
    assert all[|done|] == id && all[..|done|] == done;
    Laws.ParentOnForm(spec.content, Targets(spec.rules), {}, id);
    BesideIsThere(spec, id);
    SeenMidway(spec, before, now, done, fs);
  }

  lemma BesideIsThere(spec: Specification, id: string)
    requires SpecificationOk(spec) && id in Targets(spec.rules)
    ensures FindParent(spec.content, id).Some? && Beside(spec, id) <= spec.sets.Keys * Ids(spec.content)
  {
    var p := FindParent(spec.content, id).value;
    Laws.ParentOnForm(spec.content, Targets(spec.rules), {}, id);
    InsideFound(spec.content, p.id);
  }

  lemma LastBreaks(spec: Specification, before: set<string>, done: seq<string>, id: string, fs: string)
    requires AllTargets(spec, done + [id])
    ensures BreaksFrom(spec, before, done + [id], |done|, fs) <==> BreaksAt(spec, before, done + [id], |done|, fs)
  {
  }

  lemma {:induction false} TargetsBreak(spec: Specification, form: seq<Field>, answers: seq<AnswerStore.Entry>, before: set<string>, now: set<string>, done: seq<string>, ids: seq<string>, spoiled: set<string>, fs: string)
    requires SpecificationOk(spec) && SameTrees(form, Laws.Pruned(spec.content, now)) && Midway(spec, before, now, done, fs)
    requires forall id | id in ids :: id in Targets(spec.rules) && (id in now <==> id in before && id !in done)
    requires fs in spoiled ==> Seen(spec, now, fs)
    ensures Rules.TargetsOk(spec.content, ids) && AllTargets(spec, done + ids)
    ensures fs in SpoiledByTargets(spec, form, answers, ids, true, spoiled) <==>
      fs in spoiled || (AnswerStore.RowsOf(answers, fs) == [] && BreaksFrom(spec, before, done + ids, |done|, fs))
    decreases |ids|
  {
    if ids == [] {
      assert done + ids == done;
    } else {
      var id := ids[0];
      OneShown(spec, form, answers, before, now, done, id, spoiled, fs);
      Laws.TargetStep(spec.content, Targets(spec.rules), now, form, id, true, false);
      TargetsBreak(spec, Rules.IncludeOrRemove(spec.content, form, id, true), answers, before, now - {id}, done + [id], ids[1..],
                   SpoiledByTarget(spec, form, answers, id, true, spoiled), fs);
      TargetJoins(spec, form, answers, before, done, ids, spoiled, fs);
    }
  }

  /** One target that is shown. */
  lemma OneShown(spec: Specification, form: seq<Field>, answers: seq<AnswerStore.Entry>, before: set<string>, now: set<string>, done: seq<string>, id: string, spoiled: set<string>, fs: string)
    requires SpecificationOk(spec) && SameTrees(form, Laws.Pruned(spec.content, now)) && Midway(spec, before, now, done, fs)
    requires id in Targets(spec.rules) && (id in now <==> id in before && id !in done) && (fs in spoiled ==> Seen(spec, now, fs))
    ensures FindParent(spec.content, id).Some? && Midway(spec, before, now - {id}, done + [id], fs)
    ensures var spoiled2 := SpoiledByTarget(spec, form, answers, id, true, spoiled);
      && (fs in spoiled2 <==> fs in spoiled || (AnswerStore.RowsOf(answers, fs) == [] && BreaksFrom(spec, before, done + [id], |done|, fs)))
      && (fs in spoiled2 ==> Seen(spec, now - {id}, fs))
  {
    TargetBreaks(spec, form, answers, now, id, spoiled, fs);
    MidwayShown(spec, before, now, done, id, fs);
    SeenStays(spec, now, {id}, fs);
    LastBreaks(spec, before, done, id, fs);
  }

  lemma TargetJoins(spec: Specification, form: seq<Field>, answers: seq<AnswerStore.Entry>, before: set<string>, done: seq<string>, ids: seq<string>, spoiled: set<string>, fs: string)
    requires ids != [] && Rules.TargetsOk(spec.content, ids) && Rules.TargetsOk(spec.content, ids[1..])
    requires AllTargets(spec, done + [ids[0]]) && AllTargets(spec, done + [ids[0]] + ids[1..])
    requires var spoiled2 := SpoiledByTarget(spec, form, answers, ids[0], true, spoiled);
      && (fs in spoiled2 <==>
          fs in spoiled || (AnswerStore.RowsOf(answers, fs) == [] && BreaksFrom(spec, before, done + [ids[0]], |done|, fs)))
      && (fs in SpoiledByTargets(spec, Rules.IncludeOrRemove(spec.content, form, ids[0], true), answers, ids[1..], true, spoiled2) <==>
          fs in spoiled2 || (AnswerStore.RowsOf(answers, fs) == [] && BreaksFrom(spec, before, done + [ids[0]] + ids[1..], |done| + 1, fs)))
    ensures AllTargets(spec, done + ids)
    ensures fs in SpoiledByTargets(spec, form, answers, ids, true, spoiled) <==>
      fs in spoiled || (AnswerStore.RowsOf(answers, fs) == [] && BreaksFrom(spec, before, done + ids, |done|, fs))
  {
    FirstRegrouped(done, ids);
    BreaksInParts(spec, before, done + [ids[0]], ids[1..], |done|, fs);
  }

  lemma SeenStays(spec: Specification, now: set<string>, ids: set<string>, fs: string)
    ensures Seen(spec, now, fs) ==> Seen(spec, now - ids, fs)
  {
  }

  /** Taking fields out breaks nothing that stays. */
  lemma {:induction false} TargetsHide(spec: Specification, form: seq<Field>, answers: seq<AnswerStore.Entry>, now: set<string>, ids: seq<string>, spoiled: set<string>, fs: string)
    requires SpecificationOk(spec) && now <= Targets(spec.rules) && SameTrees(form, Laws.Pruned(spec.content, now))
    requires forall id | id in ids :: id in Targets(spec.rules) && fs !in Inside(spec.content, id)
    requires fs in spoiled ==> Seen(spec, now, fs)
    ensures Rules.TargetsOk(spec.content, ids)
    ensures fs in SpoiledByTargets(spec, form, answers, ids, false, spoiled) <==> fs in spoiled
    decreases |ids|
  {
    if ids != [] {
      var id, now2 := ids[0], now + {ids[0]};
      Laws.TargetFinds(spec.content, Targets(spec.rules), now, form, id, false);
      Laws.TargetStep(spec.content, Targets(spec.rules), now, form, id, false, false);
      var after := Rules.IncludeOrRemove(spec.content, form, id, false);
      SeenIff(spec, after, now2, fs);
      TargetsHide(spec, after, answers, now2, ids[1..], SpoiledByTarget(spec, form, answers, id, false, spoiled), fs);
    }
  }

  // --------------------------------------------------------------------- all rules

  /** The targets of the rules that show theirs, in the order of the rules. */
  function Shown(rules: seq<Rules.Rule>, answers: Rules.Answers): seq<string> {
    if rules == [] then []
    else (if IsInclude(rules[0]) && Laws.Includes(rules[0], answers) then rules[0].targetIds else []) + Shown(rules[1..], answers)
  }

  /** From the i-th rule on: each target is as before, and a rule that hides its targets
      does not hide the fieldset. */
  ghost predicate Ahead(spec: Specification, answers: Rules.Answers, before: set<string>, now: set<string>, done: seq<string>, i: nat, fs: string) {
    forall j, id | i <= j < |spec.rules| && IsInclude(spec.rules[j]) && id in spec.rules[j].targetIds ::
      (id in now <==> id in before && id !in done) && (!Laws.Includes(spec.rules[j], answers) ==> fs !in Inside(spec.content, id))
  }

  lemma RuleTargets(spec: Specification, i: nat)
    requires SpecificationOk(spec) && i < |spec.rules| && IsInclude(spec.rules[i])
    ensures forall id | id in spec.rules[i].targetIds :: id in Targets(spec.rules) && FindParent(spec.content, id).Some?
    ensures Rules.TargetsOk(spec.content, spec.rules[i].targetIds)
  {
    RulesAreTargeted(spec);
  }

  lemma AheadOfShown(spec: Specification, answers: Rules.Answers, before: set<string>, now: set<string>, done: seq<string>, i: nat, fs: string)
    requires SpecificationOk(spec) && i < |spec.rules| && IsInclude(spec.rules[i])
    requires Ahead(spec, answers, before, now, done, i, fs) && Midway(spec, before, now, done, fs)
    ensures var ids := spec.rules[i].targetIds;
      var after := Laws.HiddenAfterTargets(ids, true, now);
      && Ahead(spec, answers, before, after, done + ids, i + 1, fs) && Midway(spec, before, after, done + ids, fs)
  {
    RuleTargets(spec, i);
    HiddenLater(spec, spec.rules[i], i, true, now);
    AllTargetsMore(spec, done, spec.rules[i].targetIds);
  }

  lemma AllTargetsMore(spec: Specification, done: seq<string>, ids: seq<string>)
    requires AllTargets(spec, done)
    requires forall id | id in ids :: id in Targets(spec.rules) && FindParent(spec.content, id).Some?
    ensures AllTargets(spec, done + ids)
  {
  }

  lemma AheadOfHidden(spec: Specification, answers: Rules.Answers, before: set<string>, now: set<string>, done: seq<string>, i: nat, fs: string)
    requires SpecificationOk(spec) && i < |spec.rules| && IsInclude(spec.rules[i]) && !Laws.Includes(spec.rules[i], answers)
    requires Ahead(spec, answers, before, now, done, i, fs) && Midway(spec, before, now, done, fs)
    ensures var after := Laws.HiddenAfterTargets(spec.rules[i].targetIds, false, now);
      && Ahead(spec, answers, before, after, done, i + 1, fs) && Midway(spec, before, after, done, fs)
      && (Seen(spec, now, fs) ==> Seen(spec, after, fs))
  {
    RuleTargets(spec, i);
    HiddenLater(spec, spec.rules[i], i, false, now);
  }

  lemma BrokenIsSeen(spec: Specification, before: set<string>, now: set<string>, shown: seq<string>, from: nat, fs: string)
    requires SpecificationOk(spec) && Midway(spec, before, now, shown, fs) && BreaksFrom(spec, before, shown, from, fs)
    ensures Seen(spec, now, fs)
  {
    var n :| from <= n < |shown| && BreaksAt(spec, before, shown, n, fs);
    BesideIsThere(spec, shown[n]);
    SeenMidway(spec, before, now, shown, fs);
  }

  /** From the i-th rule on, exactly those break the fieldset that come in beside it. */
  ghost predicate Explained(spec: Specification, form: seq<Field>, answers: seq<AnswerStore.Entry>, before: set<string>, done: seq<string>, i: nat, spoiled: set<string>, fs: string)
    requires i <= |spec.rules|
  {
    var shown := done + Shown(spec.rules[i..], AnswerStore.PlainView(answers));
    && Rules.RulesOk(spec.content, spec.rules[i..]) && AllTargets(spec, shown)
    && (fs in SpoiledByRules(spec, form, answers, spec.rules[i..], spoiled) <==>
        fs in spoiled || (AnswerStore.RowsOf(answers, fs) == [] && BreaksFrom(spec, before, shown, |done|, fs)))
  }

  lemma RuleAt(spec: Specification, i: nat, answers: Rules.Answers)
    requires SpecificationOk(spec) && i < |spec.rules|
    ensures spec.rules[i..][0] == spec.rules[i] && spec.rules[i..][1..] == spec.rules[i + 1..]
    ensures Rules.RulesOk(spec.content, spec.rules[i..]) && Rules.RulesOk(spec.content, spec.rules[i + 1..])
    ensures Shown(spec.rules[i..], answers) ==
      (if IsInclude(spec.rules[i]) && Laws.Includes(spec.rules[i], answers) then spec.rules[i].targetIds else [])
      + Shown(spec.rules[i + 1..], answers)
  {
    RulesAreTargeted(spec);
  }

  lemma SkippedRuleJoins(spec: Specification, form: seq<Field>, answers: seq<AnswerStore.Entry>, before: set<string>, done: seq<string>, i: nat, spoiled: set<string>, fs: string)
    requires SpecificationOk(spec) && i < |spec.rules| && !IsInclude(spec.rules[i])
    requires Explained(spec, form, answers, before, done, i + 1, spoiled, fs)
    ensures Explained(spec, form, answers, before, done, i, spoiled, fs)
  {
    RuleAt(spec, i, AnswerStore.PlainView(answers));
    assert Shown(spec.rules[i..], AnswerStore.PlainView(answers)) == Shown(spec.rules[i + 1..], AnswerStore.PlainView(answers));
  }

  lemma HiddenRuleJoins(spec: Specification, form: seq<Field>, answers: seq<AnswerStore.Entry>, before: set<string>, done: seq<string>, i: nat, spoiled: set<string>, fs: string)
    requires SpecificationOk(spec) && i < |spec.rules| && IsInclude(spec.rules[i])
    requires !Laws.Includes(spec.rules[i], AnswerStore.PlainView(answers))
    requires var ids := spec.rules[i].targetIds;
      && Rules.TargetsOk(spec.content, ids)
      && (fs in SpoiledByTargets(spec, form, answers, ids, false, spoiled) <==> fs in spoiled)
      && Explained(spec, Rules.ApplyTargets(spec.content, form, ids, false), answers, before, done, i + 1,
                   SpoiledByTargets(spec, form, answers, ids, false, spoiled), fs)
    ensures Explained(spec, form, answers, before, done, i, spoiled, fs)
  {
    RuleAt(spec, i, AnswerStore.PlainView(answers));
    RuleUnfolds(spec, form, answers, i, spoiled);
    assert Shown(spec.rules[i..], AnswerStore.PlainView(answers)) == Shown(spec.rules[i + 1..], AnswerStore.PlainView(answers));
  }

  lemma ShownRuleJoins(spec: Specification, form: seq<Field>, answers: seq<AnswerStore.Entry>, before: set<string>, done: seq<string>, i: nat, spoiled: set<string>, fs: string)
    requires SpecificationOk(spec) && i < |spec.rules| && IsInclude(spec.rules[i])
    requires Laws.Includes(spec.rules[i], AnswerStore.PlainView(answers)) && AllTargets(spec, done + spec.rules[i].targetIds)
    requires var ids := spec.rules[i].targetIds;
      && Rules.TargetsOk(spec.content, ids)
      && (fs in SpoiledByTargets(spec, form, answers, ids, true, spoiled) <==>
          fs in spoiled || (AnswerStore.RowsOf(answers, fs) == [] && BreaksFrom(spec, before, done + ids, |done|, fs)))
      && Explained(spec, Rules.ApplyTargets(spec.content, form, ids, true), answers, before, done + ids, i + 1,
                   SpoiledByTargets(spec, form, answers, ids, true, spoiled), fs)
    ensures Explained(spec, form, answers, before, done, i, spoiled, fs)
  {
    var ids, more := spec.rules[i].targetIds, Shown(spec.rules[i + 1..], AnswerStore.PlainView(answers));
    RuleAt(spec, i, AnswerStore.PlainView(answers));
    RuleUnfolds(spec, form, answers, i, spoiled);
    Regrouped(done, ids, more);
    BreaksInParts(spec, before, done + ids, more, |done|, fs);
  }

  lemma RuleUnfolds(spec: Specification, form: seq<Field>, answers: seq<AnswerStore.Entry>, i: nat, spoiled: set<string>)
    requires SpecificationOk(spec) && i < |spec.rules| && IsInclude(spec.rules[i])
    ensures Rules.RulesOk(spec.content, spec.rules[i..]) && Rules.RulesOk(spec.content, spec.rules[i + 1..])
    ensures Rules.TargetsOk(spec.content, spec.rules[i].targetIds)
    ensures var ids, shows := spec.rules[i].targetIds, Laws.Includes(spec.rules[i], AnswerStore.PlainView(answers));
      SpoiledByRules(spec, form, answers, spec.rules[i..], spoiled) ==
      SpoiledByRules(spec, Rules.ApplyTargets(spec.content, form, ids, shows), answers, spec.rules[i + 1..],
                     SpoiledByTargets(spec, form, answers, ids, shows, spoiled))
  {
    RuleTargets(spec, i);
    RuleAt(spec, i, AnswerStore.PlainView(answers));
  }

  lemma {:induction false} RulesBreak(spec: Specification, form: seq<Field>, answers: seq<AnswerStore.Entry>, before: set<string>, now: set<string>, done: seq<string>, i: nat, spoiled: set<string>, fs: string)
    requires SpecificationOk(spec) && SameTrees(form, Laws.Pruned(spec.content, now)) && i <= |spec.rules|
    requires Midway(spec, before, now, done, fs) && Ahead(spec, AnswerStore.PlainView(answers), before, now, done, i, fs)
    requires fs in spoiled ==> Seen(spec, now, fs)
    ensures Explained(spec, form, answers, before, done, i, spoiled, fs)
    decreases |spec.rules| - i
  {
    if i == |spec.rules| {
      assert spec.rules[i..] == [] && done + [] == done;
    } else if !IsInclude(spec.rules[i]) {
      RulesBreak(spec, form, answers, before, now, done, i + 1, spoiled, fs);
      SkippedRuleJoins(spec, form, answers, before, done, i, spoiled, fs);
    } else {
      var ids, shows := spec.rules[i].targetIds, Laws.Includes(spec.rules[i], AnswerStore.PlainView(answers));
      var after := Laws.HiddenAfterTargets(ids, shows, now);
      RuleTargets(spec, i);
      Laws.TargetsStep(spec.content, Targets(spec.rules), now, form, ids, shows, false);
      var next, spoiled2 := Rules.ApplyTargets(spec.content, form, ids, shows), SpoiledByTargets(spec, form, answers, ids, shows, spoiled);
      if shows {
        ShownRule(spec, form, answers, before, now, done, i, spoiled, fs);
        RulesBreak(spec, next, answers, before, after, done + ids, i + 1, spoiled2, fs);
        ShownRuleJoins(spec, form, answers, before, done, i, spoiled, fs);
      } else {
        HiddenRule(spec, form, answers, before, now, done, i, spoiled, fs);
        RulesBreak(spec, next, answers, before, after, done, i + 1, spoiled2, fs);
        HiddenRuleJoins(spec, form, answers, before, done, i, spoiled, fs);
      }
    }
  }

  /** One rule that hides its targets. */
  lemma HiddenRule(spec: Specification, form: seq<Field>, answers: seq<AnswerStore.Entry>, before: set<string>, now: set<string>, done: seq<string>, i: nat, spoiled: set<string>, fs: string)
    requires SpecificationOk(spec) && SameTrees(form, Laws.Pruned(spec.content, now)) && i < |spec.rules| && IsInclude(spec.rules[i])
    requires Midway(spec, before, now, done, fs) && Ahead(spec, AnswerStore.PlainView(answers), before, now, done, i, fs)
    requires !Laws.Includes(spec.rules[i], AnswerStore.PlainView(answers)) && (fs in spoiled ==> Seen(spec, now, fs))
    ensures var ids := spec.rules[i].targetIds;
      var after := Laws.HiddenAfterTargets(ids, false, now);
      && Rules.TargetsOk(spec.content, ids)
      && Ahead(spec, AnswerStore.PlainView(answers), before, after, done, i + 1, fs) && Midway(spec, before, after, done, fs)
      && (fs in SpoiledByTargets(spec, form, answers, ids, false, spoiled) <==> fs in spoiled)
      && (fs in spoiled ==> Seen(spec, after, fs))
  {
    RuleTargets(spec, i);
    AheadOfHidden(spec, AnswerStore.PlainView(answers), before, now, done, i, fs);
    TargetsHide(spec, form, answers, now, spec.rules[i].targetIds, spoiled, fs);
  }

  /** One rule that shows its targets. */
  lemma ShownRule(spec: Specification, form: seq<Field>, answers: seq<AnswerStore.Entry>, before: set<string>, now: set<string>, done: seq<string>, i: nat, spoiled: set<string>, fs: string)
    requires SpecificationOk(spec) && SameTrees(form, Laws.Pruned(spec.content, now)) && i < |spec.rules| && IsInclude(spec.rules[i])
    requires Midway(spec, before, now, done, fs) && Ahead(spec, AnswerStore.PlainView(answers), before, now, done, i, fs)
    requires fs in spoiled ==> Seen(spec, now, fs)
    ensures var ids := spec.rules[i].targetIds;
      var after, shown := Laws.HiddenAfterTargets(ids, true, now), done + ids;
      && Rules.TargetsOk(spec.content, ids)
      && Ahead(spec, AnswerStore.PlainView(answers), before, after, shown, i + 1, fs) && Midway(spec, before, after, shown, fs)
      && var spoiled2 := SpoiledByTargets(spec, form, answers, ids, true, spoiled);
      && (fs in spoiled2 <==> fs in spoiled || (AnswerStore.RowsOf(answers, fs) == [] && BreaksFrom(spec, before, shown, |done|, fs)))
      && (fs in spoiled2 ==> Seen(spec, after, fs))
  {
    var ids := spec.rules[i].targetIds;
    var after := Laws.HiddenAfterTargets(ids, true, now);
    RuleTargets(spec, i);
    AheadOfShown(spec, AnswerStore.PlainView(answers), before, now, done, i, fs);
    TargetsBreak(spec, form, answers, before, now, done, ids, spoiled, fs);
    SeenStays(spec, now, (set id | id in ids), fs);
    if BreaksFrom(spec, before, done + ids, |done|, fs) { BrokenIsSeen(spec, before, after, done + ids, |done|, fs); }
  }

  // ------------------------------------------------------------------ the closed form

  lemma {:induction false} ShownAreTargets(spec: Specification, i: nat, answers: Rules.Answers)
    requires SpecificationOk(spec) && i <= |spec.rules|
    ensures AllTargets(spec, Shown(spec.rules[i..], answers))
    decreases |spec.rules| - i
  {
    if i < |spec.rules| {
      ShownAreTargets(spec, i + 1, answers);
      RuleAt(spec, i, answers);
      if IsInclude(spec.rules[i]) { RuleTargets(spec, i); }
    }
  }

  /** The fieldsets that are broken after an answer, where `before` is what was hidden and
      `broken` what was broken: those on the page that were broken already, and those
      without answers that a target comes in beside. */
  ghost function BrokenAfter(spec: Specification, before: set<string>, answers: seq<AnswerStore.Entry>, broken: set<string>): set<string>
    requires SpecificationOk(spec)
  {
    ShownAreTargets(spec, 0, AnswerStore.PlainView(answers));
    assert spec.rules[0..] == spec.rules;
    set fs | fs in spec.sets && Seen(spec, HiddenNow(spec, answers), fs) &&
             (fs in broken || (AnswerStore.RowsOf(answers, fs) == [] &&
                               BreaksFrom(spec, before, Shown(spec.rules, AnswerStore.PlainView(answers)), 0, fs)))
  }

  lemma {:induction false} TargetsSpoilOnPage(spec: Specification, form: seq<Field>, answers: seq<AnswerStore.Entry>, ids: seq<string>, doInclude: bool, spoiled: set<string>)
    requires Rules.TargetsOk(spec.content, ids) && spoiled <= SetsIn(spec, form)
    ensures SpoiledByTargets(spec, form, answers, ids, doInclude, spoiled) <=
      SetsIn(spec, Rules.ApplyTargets(spec.content, form, ids, doInclude))
    decreases |ids|
  {
    if ids != [] {
      TargetsSpoilOnPage(spec, Rules.IncludeOrRemove(spec.content, form, ids[0], doInclude), answers, ids[1..], doInclude,
                         SpoiledByTarget(spec, form, answers, ids[0], doInclude, spoiled));
    }
  }

  lemma {:induction false} RulesSpoilOnPage(spec: Specification, form: seq<Field>, answers: seq<AnswerStore.Entry>, i: nat, spoiled: set<string>)
    requires SpecificationOk(spec) && i <= |spec.rules| && spoiled <= SetsIn(spec, form)
    ensures Rules.RulesOk(spec.content, spec.rules[i..])
    ensures SpoiledByRules(spec, form, answers, spec.rules[i..], spoiled) <=
      SetsIn(spec, Rules.ApplyRules(spec.content, form, spec.rules[i..], AnswerStore.PlainView(answers)))
    decreases |spec.rules| - i
  {
    if i < |spec.rules| {
      RuleAt(spec, i, AnswerStore.PlainView(answers));
      if IsInclude(spec.rules[i]) {
        var ids, shows := spec.rules[i].targetIds, Laws.Includes(spec.rules[i], AnswerStore.PlainView(answers));
        RuleTargets(spec, i);
        TargetsSpoilOnPage(spec, form, answers, ids, shows, spoiled);
        RulesSpoilOnPage(spec, Rules.ApplyTargets(spec.content, form, ids, shows), answers, i + 1,
                         SpoiledByTargets(spec, form, answers, ids, shows, spoiled));
      } else {
        RulesSpoilOnPage(spec, form, answers, i + 1, spoiled);
      }
    }
  }

  lemma StartsAhead(spec: Specification, answers: seq<AnswerStore.Entry>, before: set<string>, fs: string)
    requires SpecificationOk(spec) && before <= Targets(spec.rules) && Seen(spec, HiddenNow(spec, answers), fs)
    ensures Midway(spec, before, before, [], fs) && Ahead(spec, AnswerStore.PlainView(answers), before, before, [], 0, fs)
  {
    var view := AnswerStore.PlainView(answers);
    forall j, id | 0 <= j < |spec.rules| && IsInclude(spec.rules[j]) && id in spec.rules[j].targetIds && !Laws.Includes(spec.rules[j], view)
      ensures fs !in Inside(spec.content, id)
    {
      OneRuleDecides(spec.rules, view, j, id, false);
      assert id in HiddenNow(spec, answers);
    }
  }

  /** Replaying the rules and the closed form agree. */
  lemma RulesBreakExactly(spec: Specification, form: seq<Field>, answers: seq<AnswerStore.Entry>, before: set<string>, broken: set<string>)
    requires SpecificationOk(spec) && before <= Targets(spec.rules) && SameTrees(form, Laws.Pruned(spec.content, before))
    requires broken <= SetsIn(spec, form)
    ensures Rules.RulesOk(spec.content, spec.rules)
    ensures SpoiledByRules(spec, form, answers, spec.rules, broken) == BrokenAfter(spec, before, answers, broken)
  {
    RulesAreTargeted(spec);
    assert spec.rules[0..] == spec.rules;
    forall fs ensures fs in SpoiledByRules(spec, form, answers, spec.rules, broken) <==> fs in BrokenAfter(spec, before, answers, broken) {
      FieldsetBreaksIff(spec, form, answers, before, broken, fs);
    }
  }

  lemma FieldsetBreaksIff(spec: Specification, form: seq<Field>, answers: seq<AnswerStore.Entry>, before: set<string>, broken: set<string>, fs: string)
    requires SpecificationOk(spec) && before <= Targets(spec.rules) && SameTrees(form, Laws.Pruned(spec.content, before))
    requires broken <= SetsIn(spec, form)
    ensures Rules.RulesOk(spec.content, spec.rules)
    ensures fs in SpoiledByRules(spec, form, answers, spec.rules, broken) <==> fs in BrokenAfter(spec, before, answers, broken)
  {
    RulesAreTargeted(spec);
    assert spec.rules[0..] == spec.rules;
    var view, shown := AnswerStore.PlainView(answers), Shown(spec.rules, AnswerStore.PlainView(answers));
    Laws.RulesForgetThePast(spec.content, Targets(spec.rules), before, form, spec.rules, view, false);
    SeenIff(spec, Rules.ApplyRules(spec.content, form, spec.rules, view), HiddenNow(spec, answers), fs);
    RulesSpoilOnPage(spec, form, answers, 0, broken);
    if Seen(spec, HiddenNow(spec, answers), fs) {
      StartsAhead(spec, answers, before, fs);
      SeenIff(spec, form, before, fs);
      RulesBreak(spec, form, answers, before, before, [], 0, broken, fs);
      assert [] + shown == shown;
    }
  }

  lemma {:induction false} ShownIsIncluded(rules: seq<Rules.Rule>, answers: Rules.Answers, id: string) returns (j: nat)
    requires id in Shown(rules, answers)
    ensures j < |rules| && IsInclude(rules[j]) && Laws.Includes(rules[j], answers) && id in rules[j].targetIds
  {
    if IsInclude(rules[0]) && Laws.Includes(rules[0], answers) && id in rules[0].targetIds {
      j := 0;
    } else {
      j := ShownIsIncluded(rules[1..], answers, id);
      j := j + 1;
    }
  }

  /** Where nothing hidden is shown, nothing breaks. */
  lemma ShownAreNotHidden(spec: Specification, before: set<string>, answers: seq<AnswerStore.Entry>)
    requires SpecificationOk(spec) && before <= HiddenNow(spec, answers)
    ensures BrokenAfter(spec, before, answers, {}) == {}
  {
    var view := AnswerStore.PlainView(answers);
    var shown := Shown(spec.rules, view);
    forall n | 0 <= n < |shown| ensures shown[n] !in before {
      var j := ShownIsIncluded(spec.rules, view, shown[n]);
      OneRuleDecides(spec.rules, view, j, shown[n], false);
    }
  }
}
