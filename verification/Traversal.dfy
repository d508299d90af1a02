/** Walking over JSON trees: preorder traversal with early exit. */
module Traversal {
  import opened Options
  import opened FormTree

  /** An object (with its id and field type, if any), an array, or anything else. */
  datatype Json =
    | Obj(id: Option<string>, fieldType: Option<string>, values: seq<Json>)
    | Arr(items: seq<Json>)
    | Atom(text: string)

  // --------------------------------------------------------------- the simple walk

  /** The objects and arrays inside the values, each before what is inside it. */
  function NodesIn(xs: seq<Json>): seq<Json> {
    if xs == [] then []
    else
      (match xs[0]
       case Obj(_, _, values) => [xs[0]] + NodesIn(values)
       case Arr(items) => [xs[0]] + NodesIn(items)
       case Atom(_) => []) + NodesIn(xs[1..])
  }

  function Inside(x: Json): seq<Json> {
    match x
    case Obj(_, _, values) => values
    case Arr(items) => items
    case Atom(_) => []
  }

  /** A value and everything inside it, in preorder. */
  function Nodes(x: Json): (ns: seq<Json>)
    ensures ns != [] && ns[0] == x
  {
    [x] + NodesIn(Inside(x))
  }

  function Filter(ns: seq<Json>, p: Json -> bool): (r: seq<Json>)
    ensures forall n | n in r :: n in ns && p(n)
  {
    if ns == [] then [] else (if p(ns[0]) then [ns[0]] else []) + Filter(ns[1..], p)
  }

  /** How many nodes come before the first that satisfies p; all of them if none does. */
  function Skipped(ns: seq<Json>, p: Json -> bool): (k: nat)
    ensures k <= |ns|
    ensures k < |ns| ==> p(ns[k])
    ensures forall i | 0 <= i < k :: !p(ns[i])
  {
    if ns == [] || p(ns[0]) then 0 else 1 + Skipped(ns[1..], p)
  }

  function FlatFilter(x: Json, p: Json -> bool): seq<Json> {
    Filter(Nodes(x), p)
  }

  function FindFirst(x: Json, p: Json -> bool): Option<Json> {
    var found := FlatFilter(x, p);
    if found == [] then None else Some(found[0])
  }

  // -------------------------------------------------------- as it is done in place

  lemma {:induction false} NodesInAppend(xs: seq<Json>, ys: seq<Json>)
    ensures NodesIn(xs + ys) == NodesIn(xs) + NodesIn(ys)
  {
    if xs == [] { assert xs + ys == ys; } else {
      assert (xs + ys)[1..] == xs[1..] + ys;
      NodesInAppend(xs[1..], ys);
    }
  }

  lemma NodesInStep(xs: seq<Json>, i: nat)
    requires i < |xs|
    ensures NodesIn(xs[..i + 1]) == if xs[i].Atom? then NodesIn(xs[..i]) else NodesIn(xs[..i]) + Nodes(xs[i])
  {
    assert xs[..i + 1] == xs[..i] + [xs[i]];
    NodesInAppend(xs[..i], [xs[i]]);
    assert [xs[i]][1..] == [];
    assert NodesIn([xs[i]]) == if xs[i].Atom? then [] else Nodes(xs[i]);
  }

  lemma {:induction false} FilterAppend(xs: seq<Json>, ys: seq<Json>, p: Json -> bool)
    ensures Filter(xs + ys, p) == Filter(xs, p) + Filter(ys, p)
  {
    if xs == [] { assert xs + ys == ys; } else {
      assert (xs + ys)[1..] == xs[1..] + ys;
      FilterAppend(xs[1..], ys, p);
    }
  }

  lemma {:induction false} SkippedAppend(xs: seq<Json>, ys: seq<Json>, p: Json -> bool)
    ensures Skipped(xs + ys, p) == if Skipped(xs, p) < |xs| then Skipped(xs, p) else |xs| + Skipped(ys, p)
  {
    if xs == [] { assert xs + ys == ys; } else {
      assert (xs + ys)[1..] == xs[1..] + ys;
      SkippedAppend(xs[1..], ys, p);
    }
  }

  lemma FilterOne(n: Json, p: Json -> bool)
    ensures Filter([n], p) == if p(n) then [n] else []
  {
    assert [n][1..] == [];
  }

  /** The results after the nodes have been offered one after another. */
  function Collected(results: seq<Json>, ns: seq<Json>, p: Json -> bool): seq<Json> {
    results + Filter(ns, p)
  }

  lemma CollectedAppend(results: seq<Json>, xs: seq<Json>, ys: seq<Json>, p: Json -> bool)
    ensures Collected(results, xs + ys, p) == Collected(Collected(results, xs, p), ys, p)
  {
    FilterAppend(xs, ys, p);
  }

  lemma CollectedOne(results: seq<Json>, x: Json, p: Json -> bool)
    ensures Collected(results, [x], p) == if p(x) then results + [x] else results
  {
    FilterOne(x, p);
  }

  /** What flatFilter's callback captures, and the walk that calls it. */
  class Collector {
    const nodePredicate: Json -> bool
    var results: seq<Json>

    constructor (p: Json -> bool)
      ensures nodePredicate == p && results == []
    {
      nodePredicate := p;
      results := [];
    }

    method Traverse(x: Json)
      modifies this
      ensures results == Collected(old(results), Nodes(x), nodePredicate)
      decreases x
    {
      CollectedOne(results, x, nodePredicate);
      CollectedAppend(results, [x], NodesIn(Inside(x)), nodePredicate);
      if nodePredicate(x) { results := results + [x]; }
      var inside := Inside(x);
      ghost var before := results;
      for i := 0 to |inside|
        invariant results == Collected(before, NodesIn(inside[..i]), nodePredicate)
      {
        NodesInStep(inside, i);
        if !inside[i].Atom? {
          CollectedAppend(before, NodesIn(inside[..i]), Nodes(inside[i]), nodePredicate);
          Traverse(inside[i]);
        }
      }
      assert inside[..|inside|] == inside;
    }
  }

  /** What findFirst's and findIndexOfFirst's callbacks have captured. */
  datatype Captured = Captured(found: bool, node: Option<Json>, index: nat)

  /** The captured variables after the nodes have been offered one after another. */
  function Offered(c: Captured, ns: seq<Json>, p: Json -> bool): Captured {
    if c.found then c
    else
      var k := Skipped(ns, p);
      if k < |ns| then Captured(true, Some(ns[k]), c.index + k) else c.(index := c.index + k)
  }

  lemma OfferedAppend(c: Captured, xs: seq<Json>, ys: seq<Json>, p: Json -> bool)
    ensures Offered(c, xs + ys, p) == Offered(Offered(c, xs, p), ys, p)
  {
    SkippedAppend(xs, ys, p);
  }

  class Search {
    const nodePredicate: Json -> bool
    var found: bool
    var node: Option<Json>
    var index: nat

    constructor (p: Json -> bool)
      ensures nodePredicate == p && Now() == Captured(false, None, 0)
    {
      nodePredicate := p;
      found := false;
      node := None;
      index := 0;
    }

    ghost function Now(): Captured
      reads this
    {
      Captured(found, node, index)
    }

    method Visit(element: Json) returns (shouldContinue: bool)
      modifies this
      ensures Now() == Offered(old(Now()), [element], nodePredicate)
      ensures shouldContinue <==> !found
    {
      if found { return false; }
      if nodePredicate(element) {
        found := true;
        node := Some(element);
        return false;
      }
      index := index + 1;
      return true;
    }

    /** Leaving out what is inside a node, once something has been found, makes no
        difference. */
    method FastTraverse(x: Json)
      modifies this
      ensures Now() == Offered(old(Now()), Nodes(x), nodePredicate)
      decreases x
    {
      var shouldContinue := Visit(x);
      OfferedAppend(old(Now()), [x], NodesIn(Inside(x)), nodePredicate);
      if shouldContinue && !x.Atom? { TraverseInside(Inside(x)); }
    }

    /** The items of an array, or the values of an object. */
    method TraverseInside(inside: seq<Json>)
      modifies this
      ensures Now() == Offered(old(Now()), NodesIn(inside), nodePredicate)
      decreases inside
    {
      ghost var before := Now();
      for i := 0 to |inside|
        invariant Now() == Offered(before, NodesIn(inside[..i]), nodePredicate)
      {
        NodesInStep(inside, i);
        if !inside[i].Atom? {
          OfferedAppend(before, NodesIn(inside[..i]), Nodes(inside[i]), nodePredicate);
          FastTraverse(inside[i]);
        }
      }
      assert inside[..|inside|] == inside;
    }
  }

  lemma {:induction false} FirstOfFilter(ns: seq<Json>, p: Json -> bool)
    ensures Filter(ns, p) == [] <==> Skipped(ns, p) == |ns|
    ensures Filter(ns, p) != [] ==> Filter(ns, p)[0] == ns[Skipped(ns, p)]
  {
    if ns != [] { FirstOfFilter(ns[1..], p); }
  }

  /** findFirst stops at the node that comes first in flatFilter. */
  method FindFirstNode(x: Json, p: Json -> bool) returns (r: Option<Json>)
    ensures r == FindFirst(x, p)
  {
    var search := new Search(p);
    search.FastTraverse(x);
    FirstOfFilter(Nodes(x), p);
    r := search.node;
  }

  /** findIndexOfFirst counts the position of that node in the preorder. */
  method FindIndexOfFirst(x: Json, p: Json -> bool) returns (k: int)
    ensures FindFirst(x, p).None? ==> k == -1
    ensures FindFirst(x, p).Some? ==>
      0 <= k < |Nodes(x)| && Nodes(x)[k] == FindFirst(x, p).value && forall i | 0 <= i < k :: !p(Nodes(x)[i])
  {
    var search := new Search(p);
    search.FastTraverse(x);
    FirstOfFilter(Nodes(x), p);
    k := if search.found then search.index else -1;
  }

  method FlatFilterNodes(x: Json, p: Json -> bool) returns (r: seq<Json>)
    ensures r == FlatFilter(x, p)
  {
    var collector := new Collector(p);
    collector.Traverse(x);
    r := collector.results;
  }

  // -------------------------------------------------------------- growing parents

  function HasId(id: string): Json -> bool {
    (n: Json) => n.Obj? && n.id == Some(id)
  }

  function IsGrowingSet(): Json -> bool {
    (n: Json) => n.Obj? && n.fieldType == Some("growingFieldset")
  }

  /** The node holds the id, itself or inside. */
  predicate Holds(n: Json, id: string) {
    FindFirst(n, HasId(id)).Some?
  }

  function HoldsId(id: string): Json -> bool {
    (n: Json) => Holds(n, id)
  }

  function Holding(ns: seq<Json>, id: string): seq<Json> {
    Filter(ns, HoldsId(id))
  }

  datatype NodeSearch = Found(node: Json) | NotFound | Thrown

  /** The one node of a list that holds the id; more than one is an error. */
  function FindJsonNodeContainingId(ns: seq<Json>, id: string): NodeSearch {
    var all := Holding(ns, id);
    if |all| > 1 then Thrown else if all == [] then NotFound else Found(all[0])
  }

  function FindGrowingParent(content: Json, id: string): NodeSearch {
    FindJsonNodeContainingId(FlatFilter(content, IsGrowingSet()), id)
  }

  function CountId(ns: seq<Json>, id: string): nat {
    if ns == [] then 0 else (if HasId(id)(ns[0]) then 1 else 0) + CountId(ns[1..], id)
  }

  ghost predicate UniqueIds(x: Json) {
    forall id :: CountId(Nodes(x), id) <= 1
  }

  /** No growing fieldset is inside another one. */
  predicate NoNestedSets(xs: seq<Json>) {
    if xs == [] then true
    else
      && NoNestedSets(xs[1..])
      && (match xs[0]
          case Obj(_, _, values) => NoNestedSets(values) && (IsGrowingSet()(xs[0]) ==> Filter(NodesIn(values), IsGrowingSet()) == [])
          case Arr(items) => NoNestedSets(items)
          case Atom(_) => true)
  }

  lemma {:induction false} CountAppend(xs: seq<Json>, ys: seq<Json>, id: string)
    ensures CountId(xs + ys, id) == CountId(xs, id) + CountId(ys, id)
  {
    if xs == [] { assert xs + ys == ys; } else {
      assert (xs + ys)[1..] == xs[1..] + ys;
      CountAppend(xs[1..], ys, id);
    }
  }

  lemma HoldingAppend(xs: seq<Json>, ys: seq<Json>, id: string)
    ensures Holding(xs + ys, id) == Holding(xs, id) + Holding(ys, id)
  {
    FilterAppend(xs, ys, HoldsId(id));
  }

  lemma {:induction false} CountMeans(ns: seq<Json>, id: string)
    ensures CountId(ns, id) > 0 <==> Filter(ns, HasId(id)) != []
  {
    if ns != [] { CountMeans(ns[1..], id); }
  }

  function SetsHolding(ns: seq<Json>, id: string): seq<Json> {
    Holding(Filter(ns, IsGrowingSet()), id)
  }

  lemma SetsAppend(xs: seq<Json>, ys: seq<Json>, id: string)
    ensures SetsHolding(xs + ys, id) == SetsHolding(xs, id) + SetsHolding(ys, id)
  {
    FilterAppend(xs, ys, IsGrowingSet());
    HoldingAppend(Filter(xs, IsGrowingSet()), Filter(ys, IsGrowingSet()), id);
  }

  lemma OneSet(n: Json, id: string)
    ensures SetsHolding([n], id) == if IsGrowingSet()(n) && Holds(n, id) then [n] else []
    ensures CountId([n], id) == if HasId(id)(n) then 1 else 0
  {
    FilterOne(n, IsGrowingSet());
    FilterOne(n, HoldsId(id));
    assert [n][1..] == [];
  }

  /** Without nesting, every set that holds an id takes up an occurrence of it. */
  lemma {:induction false} SetsTakeOccurrences(xs: seq<Json>, id: string)
    requires NoNestedSets(xs)
    ensures |SetsHolding(NodesIn(xs), id)| <= CountId(NodesIn(xs), id)
  {
    if xs != [] {
      var x := xs[0];
      SetsTakeOccurrences(xs[1..], id);
      match x
      case Atom(_) =>
        assert NodesIn(xs) == NodesIn(xs[1..]);
      case Obj(_, _, values) =>
        SetsTakeOccurrences(values, id);
        NodeTakesOccurrence(x, id);
        FirstNode(xs, id);
      case Arr(items) =>
        SetsTakeOccurrences(items, id);
        NodeTakesOccurrence(x, id);
        FirstNode(xs, id);
    }
  }

  lemma FirstNode(xs: seq<Json>, id: string)
    requires xs != [] && !xs[0].Atom?
    ensures CountId(NodesIn(xs), id) == CountId(Nodes(xs[0]), id) + CountId(NodesIn(xs[1..]), id)
    ensures SetsHolding(NodesIn(xs), id) == SetsHolding(Nodes(xs[0]), id) + SetsHolding(NodesIn(xs[1..]), id)
  {
    assert NodesIn(xs) == Nodes(xs[0]) + NodesIn(xs[1..]);
    CountAppend(Nodes(xs[0]), NodesIn(xs[1..]), id);
    SetsAppend(Nodes(xs[0]), NodesIn(xs[1..]), id);
  }

  lemma NodeTakesOccurrence(x: Json, id: string)
    requires !x.Atom? && |SetsHolding(NodesIn(Inside(x)), id)| <= CountId(NodesIn(Inside(x)), id)
    requires IsGrowingSet()(x) ==> Filter(NodesIn(Inside(x)), IsGrowingSet()) == []
    ensures |SetsHolding(Nodes(x), id)| <= CountId(Nodes(x), id)
  {
    var inside := NodesIn(Inside(x));
    OneSet(x, id);
    CountAppend([x], inside, id);
    SetsAppend([x], inside, id);
    CountMeans(Nodes(x), id);
  }

  lemma HoldingMembers(ns: seq<Json>, id: string, n: Json)
    ensures n in Holding(ns, id) <==> n in ns && Holds(n, id)
  {
    FilterMembers(ns, HoldsId(id), n);
  }

  lemma {:induction false} FilterMembers(ns: seq<Json>, p: Json -> bool, n: Json)
    ensures n in Filter(ns, p) <==> n in ns && p(n)
  {
    if ns != [] { FilterMembers(ns[1..], p, n); }
  }

  /** With unique ids and no nested sets, looking for the growing fieldset around a field
      never fails: it gives the only one that holds the id, or none if no set does. */
  lemma GrowingParentIsUnique(content: Json, id: string)
    requires UniqueIds(content) && NoNestedSets([content])
    ensures var r := FindGrowingParent(content, id);
      && !r.Thrown?
      && forall n :: n in Nodes(content) && IsGrowingSet()(n) && Holds(n, id) <==> r == Found(n)
  {
    OneAtMost(content, id);
    forall n ensures n in Nodes(content) && IsGrowingSet()(n) && Holds(n, id) <==> FindGrowingParent(content, id) == Found(n) {
      SetsThatHold(content, id, n);
      OnlyMember(Holding(FlatFilter(content, IsGrowingSet()), id), n);
    }
  }

  lemma SetsThatHold(content: Json, id: string, n: Json)
    ensures n in Holding(FlatFilter(content, IsGrowingSet()), id) <==>
      n in Nodes(content) && IsGrowingSet()(n) && Holds(n, id)
  {
    HoldingMembers(FlatFilter(content, IsGrowingSet()), id, n);
    FilterMembers(Nodes(content), IsGrowingSet(), n);
  }

  lemma OnlyMember(ns: seq<Json>, n: Json)
    requires |ns| <= 1
    ensures n in ns <==> ns != [] && ns[0] == n
  {
  }

  lemma OneAtMost(content: Json, id: string)
    requires UniqueIds(content) && NoNestedSets([content])
    ensures |Holding(FlatFilter(content, IsGrowingSet()), id)| <= 1
  {
    assert CountId(Nodes(content), id) <= 1;
    if content.Atom? {
      OneSet(content, id);
    } else {
      SetsTakeOccurrences([content], id);
      FirstNode([content], id);
    }
  }

  /** A field in a growing fieldset inside another one makes the search fail. */
  lemma NestedSetsAreAnError(outer: Json, inner: Json, id: string)
    requires IsGrowingSet()(outer) && IsGrowingSet()(inner) && inner in NodesIn(Inside(outer))
    requires Holds(outer, id) && Holds(inner, id)
    ensures FindGrowingParent(outer, id) == Thrown
  {
    var inside := NodesIn(Inside(outer));
    OneSet(outer, id);
    SetsAppend([outer], inside, id);
    FilterMembers(inside, IsGrowingSet(), inner);
    HoldingMembers(Filter(inside, IsGrowingSet()), id, inner);
    assert |SetsHolding(inside, id)| >= 1;
  }

  // ---------------------------------------------------------------- form trees

  /** A form tree as JSON: an object for a field, with an array of its children. */
  function AsJson(f: Field): Json {
    match f
    case Leaf(id, fieldType) => Obj(Some(id), Some(fieldType), [])
    case Branch(id, fieldType, children) => Obj(Some(id), Some(fieldType), [Arr(AllAsJson(children))])
  }

  function AllAsJson(fs: seq<Field>): seq<Json> {
    if fs == [] then [] else [AsJson(fs[0])] + AllAsJson(fs[1..])
  }

  function FirstWithId(ns: seq<Json>, id: string): Option<Json> {
    var found := Filter(ns, HasId(id));
    if found == [] then None else Some(found[0])
  }

  lemma FirstOfTwo(xs: seq<Json>, ys: seq<Json>, id: string)
    ensures FirstWithId(xs + ys, id) == if FirstWithId(xs, id).Some? then FirstWithId(xs, id) else FirstWithId(ys, id)
  {
    FilterAppend(xs, ys, HasId(id));
  }

  lemma {:induction false} FindInJson(fs: seq<Field>, id: string)
    ensures FirstWithId(NodesIn(AllAsJson(fs)), id) ==
      if Find(fs, id).Some? then Some(AsJson(Find(fs, id).value)) else None
  {
    if fs != [] {
      var f, rest := fs[0], AllAsJson(fs[1..]);
      FindInJson(fs[1..], id);
      FieldNodes(f);
      assert AllAsJson(fs)[1..] == rest && NodesIn(AllAsJson(fs)) == Nodes(AsJson(f)) + NodesIn(rest);
      FirstOfTwo(Nodes(AsJson(f)), NodesIn(rest), id);
      var kids := if f.Leaf? then [] else [Arr(AllAsJson(f.children))] + NodesIn(AllAsJson(f.children));
      FirstOfTwo([AsJson(f)], kids, id);
      OnlyNode(AsJson(f), id);
      if f.Branch? {
        FindInJson(f.children, id);
        FirstOfTwo([Arr(AllAsJson(f.children))], NodesIn(AllAsJson(f.children)), id);
        OnlyNode(Arr(AllAsJson(f.children)), id);
      }
    }
  }

  lemma OnlyNode(n: Json, id: string)
    ensures FirstWithId([n], id) == if HasId(id)(n) then Some(n) else None
  {
    FilterOne(n, HasId(id));
  }

  lemma FieldNodes(f: Field)
    ensures Nodes(AsJson(f)) ==
      [AsJson(f)] + if f.Leaf? then [] else [Arr(AllAsJson(f.children))] + NodesIn(AllAsJson(f.children))
  {
    if f.Branch? {
      var arr := Arr(AllAsJson(f.children));
      assert [arr][1..] == [] && NodesIn([arr]) == [arr] + NodesIn(arr.items) + NodesIn([]);
    }
  }

  /** Finding a field in the JSON of a form is finding it in the form tree. */
  lemma FindFieldIsFind(fs: seq<Field>, id: string)
    ensures FindFirst(Arr(AllAsJson(fs)), HasId(id)) ==
      if Find(fs, id).Some? then Some(AsJson(Find(fs, id).value)) else None
  {
    var content := Arr(AllAsJson(fs));
    FindInJson(fs, id);
    FirstOfTwo([content], NodesIn(content.items), id);
    OnlyNode(content, id);
  }
}
