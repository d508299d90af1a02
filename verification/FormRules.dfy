/** Include rules: fields that are on the form only while some answer has some value.
    The rows of a growing fieldset are not part of the tree; module FormPage has them. */
module FormRules {
  import opened FieldIds
  import opened Options
  import opened Texts
  import opened FormTree

  datatype Rule = Rule(ruleType: string, triggerId: string, triggerValue: string, targetIds: seq<string>)

  /** Answers of fields outside growing fieldsets. */
  type Answers = TextMap

  // ------------------------------------------------------------- where a field goes

  /** Ids are equal, or equal when the index is left out (idIsSameOrSameIfIndexIgnored). */
  predicate Matches(sought: string, given: string) {
    var bare := if sought == "" then Some("") else WithoutIndex(sought);
    bare.Some? && (given == bare.value || (given != "" && bare.value != "" && WithoutIndex(given) == bare))
  }

  /** The first field that matches, or -1. */
  function SpecIndex(spec: seq<Field>, id: string): (k: int)
    ensures -1 <= k < |spec|
  {
    if spec == [] then -1
    else if Matches(id, spec[0].id) then 0
    else var k := SpecIndex(spec[1..], id); if k < 0 then -1 else k + 1
  }

  /** Where the specification has the field with an id. */
  function PlaceIn(spec: seq<Field>): string -> int {
    (id: string) => SpecIndex(spec, id)
  }

  /** How many of the current fields come before a field with position n. */
  function InsertionPoint(place: string -> int, current: seq<Field>, n: int): (k: nat)
    ensures k <= |current|
  {
    if current == [] || place(current[0].id) > n then 0
    else 1 + InsertionPoint(place, current[1..], n)
  }

  /** Walks over the current fields up to the first with a later place. */
  method FindIndexBefore(place: string -> int, current: seq<Field>, newPlace: int) returns (index: nat)
    ensures index == InsertionPoint(place, current, newPlace)
  {
    index := 0;
    while index < |current|
      invariant index <= |current|
      invariant InsertionPoint(place, current, newPlace) == index + InsertionPoint(place, current[index..], newPlace)
    {
      if place(current[index].id) > newPlace { break; }
      assert current[index..][1..] == current[index + 1..];
      index := index + 1;
    }
  }

  method FindChildIndexAccordingToFieldSpecification(spec: seq<Field>, current: seq<Field>, id: string) returns (index: nat)
    ensures index == InsertionPoint(PlaceIn(spec), current, SpecIndex(spec, id))
  {
    var newFieldSpecIndex := SpecIndex(spec, id);
    index := FindIndexBefore(PlaceIn(spec), current, newFieldSpecIndex);
  }

  // ----------------------------------------------------------------- applying rules

  /** The children of a rule's parent with the field put back, or taken out. */
  function ChildrenWith(specParent: Field, current: seq<Field>, id: string, doInclude: bool): seq<Field>
    requires specParent.Branch? && HasChild(specParent.children, id)
  {
    if doInclude then
      ChildIsFound(specParent.children, id);
      var k := InsertionPoint(PlaceIn(specParent.children), current, SpecIndex(specParent.children, id));
      Inserted(current, k, Find(specParent.children, id).value)
    else RemoveById(current, id)
  }

  lemma ChildIsFound(fs: seq<Field>, id: string)
    requires HasChild(fs, id)
    ensures Find(fs, id).Some?
  {
    var f :| f in fs && f.id == id;
    ChildIsInIds(fs, f);
  }

  /** One target of one rule; the specification must hold the target below its top. */
  function IncludeOrRemove(spec: seq<Field>, form: seq<Field>, id: string, doInclude: bool): seq<Field>
    requires FindParent(spec, id).Some?
  {
    if Toggles(spec, form, id, doInclude) then
      var specParent := FindParent(spec, id).value;
      WithChildren(form, specParent.id, ChildrenWith(specParent, Find(form, specParent.id).value.children, id, doInclude))
    else form
  }

  /** The target's parent is on the form, and the target is not as it should be. */
  predicate Toggles(spec: seq<Field>, form: seq<Field>, id: string, doInclude: bool)
    requires FindParent(spec, id).Some?
  {
    var parent := Find(form, FindParent(spec, id).value.id);
    parent.Some? && parent.value.Branch? && doInclude == Find(form, id).None?
  }

  /** Every target has a parent in the specification. */
  predicate TargetsOk(spec: seq<Field>, ids: seq<string>) {
    forall i | 0 <= i < |ids| :: FindParent(spec, ids[i]).Some?
  }

  predicate RulesOk(spec: seq<Field>, rules: seq<Rule>) {
    forall i | 0 <= i < |rules| && rules[i].ruleType == "includeIf" :: TargetsOk(spec, rules[i].targetIds)
  }

  function ApplyTargets(spec: seq<Field>, form: seq<Field>, ids: seq<string>, doInclude: bool): seq<Field>
    requires TargetsOk(spec, ids)
    decreases |ids|
  {
    if ids == [] then form
    else ApplyTargets(spec, IncludeOrRemove(spec, form, ids[0], doInclude), ids[1..], doInclude)
  }

  function ApplyRules(spec: seq<Field>, form: seq<Field>, rules: seq<Rule>, answers: Answers): seq<Field>
    requires RulesOk(spec, rules)
    decreases |rules|
  {
    if rules == [] then form
    else if rules[0].ruleType != "includeIf" then ApplyRules(spec, form, rules[1..], answers)
    else
      var doInclude := TextAt(answers, rules[0].triggerId) == rules[0].triggerValue;
      ApplyRules(spec, ApplyTargets(spec, form, rules[0].targetIds, doInclude), rules[1..], answers)
  }
}
