/** What applying rules makes of a form: the specification without the fields that the
    current answers hide. */
module RuleLaws {
  import opened Decimal
  import opened FieldIds
  import opened Options
  import opened Texts
  import opened FormTree
  import opened TreeLaws
  import opened SiblingOrder
  import opened FormRules

  /** The trees without the fields whose ids are hidden. */
  function Pruned(fs: seq<Field>, hidden: set<string>): (r: seq<Field>)
    ensures Ids(r) <= Ids(fs) && Ids(r) !! hidden
  {
    if fs == [] then []
    else if fs[0].id in hidden then Pruned(fs[1..], hidden)
    else
      match fs[0]
      case Leaf(_, _) => [fs[0]] + Pruned(fs[1..], hidden)
      case Branch(id, fieldType, children) => [Branch(id, fieldType, Pruned(children, hidden))] + Pruned(fs[1..], hidden)
  }

  /** The id is not inside any hidden field. */
  predicate Clear(fs: seq<Field>, hidden: set<string>, id: string) {
    if fs == [] then true
    else if fs[0].id in hidden then fs[0].id != id && id !in Ids(Kids(fs[0])) && Clear(fs[1..], hidden, id)
    else (fs[0].Branch? ==> Clear(fs[0].children, hidden, id)) && Clear(fs[1..], hidden, id)
  }

  /** No target is inside another one. */
  predicate Independent(fs: seq<Field>, targets: set<string>) {
    if fs == [] then true
    else
      && (fs[0].id in targets ==> Ids(Kids(fs[0])) !! targets)
      && (fs[0].Branch? ==> Independent(fs[0].children, targets))
      && Independent(fs[1..], targets)
  }

  /** What the theorems ask of a specification: unique ids, and targets that are inside
      some field and not inside each other. */
  predicate Ruled(content: seq<Field>, targets: set<string>) {
    && Unique(content) && Independent(content, targets)
    && forall id | id in targets :: FindParent(content, id).Some?
  }

  lemma {:induction false} PruneNone(fs: seq<Field>, hidden: set<string>)
    requires Ids(fs) !! hidden
    ensures Pruned(fs, hidden) == fs
  {
    if fs != [] {
      PruneNone(fs[1..], hidden);
      if fs[0].Branch? { PruneNone(fs[0].children, hidden); }
    }
  }

  lemma {:induction false} PruneSame(fs: seq<Field>, h1: set<string>, h2: set<string>, id: string)
    requires id !in Ids(fs) && h1 + {id} == h2 + {id}
    ensures Pruned(fs, h1) == Pruned(fs, h2)
  {
    if fs != [] {
      PruneSame(fs[1..], h1, h2, id);
      if fs[0].Branch? { PruneSame(fs[0].children, h1, h2, id); }
      assert fs[0].id != id;
      assert fs[0].id in h1 + {id} <==> fs[0].id in h2 + {id};
    }
  }

  function PrunedField(f: Field, hidden: set<string>): Field {
    if f.Leaf? then f else f.(children := Pruned(f.children, hidden))
  }

  /** A field that is not inside a hidden one is found with its own children pruned. */
  lemma {:induction false} FindPruned(fs: seq<Field>, hidden: set<string>, id: string)
    requires Unique(fs) && Clear(fs, hidden, id) && id in Ids(fs)
    ensures Find(Pruned(fs, hidden), id) == Some(PrunedField(Find(fs, id).value, hidden)) && id !in hidden
  {
    if fs[0].id != id {
      if fs[0].Branch? && id in Ids(fs[0].children) {
        FindPruned(fs[0].children, hidden, id);
      } else {
        FindPruned(fs[1..], hidden, id);
      }
    }
  }

  /** Changing what is hidden among the children of one field only. */
  lemma {:induction false} PruneBelow(fs: seq<Field>, h1: set<string>, h2: set<string>, p: string, id: string)
    requires Unique(fs) && Clear(fs, h1, p) && p in Ids(fs) && h1 + {id} == h2 + {id} && id != p
    requires Find(fs, p).value.Branch? && id in Ids(Find(fs, p).value.children)
    ensures WithChildren(Pruned(fs, h1), p, Pruned(Find(fs, p).value.children, h2)) == Pruned(fs, h2)
    ensures id in Ids(fs)
  {
    var f := fs[0];
    if f.id == p {
      assert p !in h2 by { assert p in h2 ==> p in h1 + {id}; }
      PruneSame(fs[1..], h1, h2, id);
    } else if f.Branch? && p in Ids(f.children) {
      PruneBelow(f.children, h1, h2, p, id);
      assert f.id !in h2 by { assert f.id in h2 ==> f.id in h1 + {id}; }
      PruneSame(fs[1..], h1, h2, id);
      FindPruned(f.children, h1, p);
    } else {
      PruneBelow(fs[1..], h1, h2, p, id);
      PruneSame(Kids(f), h1, h2, id);
      assert f.id in h1 + {id} <==> f.id in h2 + {id};
    }
  }

  // ------------------------------------------------------------ taking a field out

  lemma {:induction false} RemoveHidden(fs: seq<Field>, hidden: set<string>, id: string)
    requires Unique(fs) && HasChild(fs, id)
    ensures RemoveById(Pruned(fs, hidden), id) == Pruned(fs, hidden + {id})
  {
    var f := fs[0];
    NotInside(fs, id);
    PruneSame(Kids(f), hidden, hidden + {id}, id);
    if f.id == id {
      RemoveAbsent(Pruned(fs[1..], hidden), id);
      PruneSame(fs[1..], hidden, hidden + {id}, id);
    } else {
      RemoveHidden(fs[1..], hidden, id);
    }
  }

  /** An id of a child is nowhere deeper. */
  lemma NotInside(fs: seq<Field>, id: string)
    requires Unique(fs) && HasChild(fs, id)
    ensures id !in Ids(Kids(fs[0]))
  {
    var f :| f in fs && f.id == id;
    if f != fs[0] { ChildIsInIds(fs[1..], f); }
  }

  // ----------------------------------------------------------- putting a field back

  lemma {:induction false} SpecIndexIsFirst(spec: seq<Field>, id: string, k: nat)
    requires k < |spec| && Matches(id, spec[k].id) && forall i | 0 <= i < k :: !Matches(id, spec[i].id)
    ensures SpecIndex(spec, id) == k
  {
    if k > 0 {
      assert !Matches(id, spec[0].id);
      forall i | 0 <= i < k - 1 ensures !Matches(id, spec[1..][i].id) { assert spec[1..][i] == spec[i + 1]; }
      SpecIndexIsFirst(spec[1..], id, k - 1);
    }
  }

  lemma {:induction false} PointIff(place: string -> int, left: seq<Field>, right: seq<Field>, n: int)
    ensures InsertionPoint(place, left + right, n) == |left| <==>
      NoneLater(place, left, n) && (right != [] ==> place(right[0].id) > n)
  {
    if left == [] {
      assert left + right == right;
    } else {
      assert (left + right)[1..] == left[1..] + right && (left + right)[0] == left[0];
      assert NoneLater(place, left, n) <==> place(left[0].id) <= n && NoneLater(place, left[1..], n) by {
        assert forall i | 0 < i < |left| :: left[i] == left[1..][i - 1];
      }
      PointIff(place, left[1..], right, n);
    }
  }

  predicate NoneLater(place: string -> int, fs: seq<Field>, n: int) {
    forall i | 0 <= i < |fs| :: place(fs[i].id) <= n
  }

  lemma PutBackIff(left: seq<Field>, right: seq<Field>, k: nat, f: Field)
    requires k <= |left + right| && forall g | g in left || g in right :: g.id != f.id
    ensures Inserted(left + right, k, f) == left + [f] + right <==> k == |left|
  {
    var all := left + right;
    if k < |left| {
      assert Inserted(all, k, f)[k] == f && (left + [f] + right)[k] == left[k] && left[k] in left;
    } else if k > |left| {
      assert (left + [f] + right)[|left|] == f && Inserted(all, k, f)[|left|] == all[|left|] == right[0] && right[0] in right;
    } else {
      assert all[..k] == left && all[k..] == right;
    }
  }

  lemma {:induction false} PrunedAppend(xs: seq<Field>, ys: seq<Field>, hidden: set<string>)
    ensures Pruned(xs + ys, hidden) == Pruned(xs, hidden) + Pruned(ys, hidden)
  {
    if xs == [] { assert xs + ys == ys; } else {
      assert (xs + ys)[1..] == xs[1..] + ys;
      PrunedAppend(xs[1..], ys, hidden);
    }
  }

  /** The children around a hidden one, and the children once it is shown. */
  lemma AroundHidden(children: seq<Field>, k: nat, hidden: set<string>)
    requires k < |children| && Unique(children) && children[k].id in hidden && Ids(Kids(children[k])) !! hidden
    ensures var left, right := Pruned(children[..k], hidden), Pruned(children[k + 1..], hidden);
      && Pruned(children, hidden) == left + right
      && Pruned(children, hidden - {children[k].id}) == left + [children[k]] + right
      && forall g | g in left || g in right :: g.id != children[k].id
  {
    var f, h2 := children[k], hidden - {children[k].id};
    ApartIds(children, k);
    PrunedAround(children, k, hidden);
    PrunedAround(children, k, h2);
    PruneSame(children[..k], hidden, h2, f.id);
    PruneSame(children[k + 1..], hidden, h2, f.id);
    ShownWhole(f, h2);
    NotAmongLeft(children[..k], hidden, f.id);
    NotAmongLeft(children[k + 1..], hidden, f.id);
    assert Pruned(children[..k], hidden) + [] == Pruned(children[..k], hidden);
  }

  lemma ShownWhole(f: Field, hidden: set<string>)
    requires Ids(Kids(f)) !! hidden
    ensures PrunedField(f, hidden) == f
  {
    PruneNone(Kids(f), hidden);
  }

  lemma NotAmongLeft(fs: seq<Field>, hidden: set<string>, id: string)
    requires id !in Ids(fs)
    ensures forall g | g in Pruned(fs, hidden) :: g.id != id
  {
    forall g | g in Pruned(fs, hidden) ensures g.id != id { ChildIsInIds(Pruned(fs, hidden), g); }
  }

  lemma ApartIds(children: seq<Field>, k: nat)
    requires k < |children| && Unique(children)
    ensures children[k].id !in Ids(children[..k]) && children[k].id !in Ids(children[k + 1..])
  {
    Around(children, k);
    ApartFromBoth(children[..k], children[k], children[k + 1..]);
  }

  lemma Around(children: seq<Field>, k: nat)
    requires k < |children|
    ensures children[..k] + ([children[k]] + children[k + 1..]) == children
  {
  }

  lemma ApartFromBoth(left: seq<Field>, f: Field, right: seq<Field>)
    requires Unique(left + ([f] + right))
    ensures f.id !in Ids(left) && f.id !in Ids(right)
  {
    UniqueAppend(left, [f] + right);
    FirstIsApart(f, right);
  }

  lemma FirstIsApart(f: Field, rest: seq<Field>)
    requires Unique([f] + rest)
    ensures f.id in Ids([f] + rest) && f.id !in Ids(rest)
  {
    assert ([f] + rest)[1..] == rest && ([f] + rest)[0] == f;
  }

  lemma PrunedAround(children: seq<Field>, k: nat, hidden: set<string>)
    requires k < |children|
    ensures Pruned(children, hidden) == Pruned(children[..k], hidden) +
      (if children[k].id in hidden then [] else [PrunedField(children[k], hidden)]) + Pruned(children[k + 1..], hidden)
  {
    assert children == children[..k] + [children[k]] + children[k + 1..];
    PrunedAppend(children[..k] + [children[k]], children[k + 1..], hidden);
    PrunedAppend(children[..k], [children[k]], hidden);
    PrunedOne(children[k], hidden);
  }

  lemma PrunedOne(f: Field, hidden: set<string>)
    ensures Pruned([f], hidden) == if f.id in hidden then [] else [PrunedField(f, hidden)]
  {
    assert [f][1..] == [] && Pruned([], hidden) == [];
  }

  /** No child shown before the k-th has a later place, and the first one shown behind it
      has. */
  predicate ComesBack(place: string -> int, children: seq<Field>, k: nat, hidden: set<string>)
    requires k < |children|
  {
    var n, right := place(children[k].id), Pruned(children[k + 1..], hidden);
    NoneLater(place, Pruned(children[..k], hidden), n) && (right != [] ==> place(right[0].id) > n)
  }

  /** Exactly then a hidden child is put back where it belongs. */
  lemma ChildComesBackIff(place: string -> int, children: seq<Field>, k: nat, hidden: set<string>)
    requires k < |children| && Unique(children) && children[k].id in hidden && Ids(Kids(children[k])) !! hidden
    ensures var left := Pruned(children, hidden);
      var back := Inserted(left, InsertionPoint(place, left, place(children[k].id)), children[k]);
      back == Pruned(children, hidden - {children[k].id}) <==> ComesBack(place, children, k, hidden)
  {
    var left, right := Pruned(children[..k], hidden), Pruned(children[k + 1..], hidden);
    AroundHidden(children, k, hidden);
    PointIff(place, left, right, place(children[k].id));
    PutBackIff(left, right, InsertionPoint(place, left + right, place(children[k].id)), children[k]);
  }

  /** The child is apart from all others by its place, whichever of them are hidden. */
  predicate KeepsItsPlace(place: string -> int, children: seq<Field>, k: nat)
    requires k < |children|
  {
    && (forall j | 0 <= j < k :: place(children[j].id) <= place(children[k].id))
    && forall j | k < j < |children| :: place(children[j].id) > place(children[k].id)
  }

  /** Every field that is left belongs to one of the list. */
  lemma {:induction false} LeftBelongs(fs: seq<Field>, hidden: set<string>, g: Field) returns (j: nat)
    requires g in Pruned(fs, hidden)
    ensures j < |fs| && fs[j].id == g.id
  {
    if fs[0].id !in hidden && g == Pruned(fs, hidden)[0] {
      j := 0;
    } else {
      assert g in Pruned(fs[1..], hidden);
      j := LeftBelongs(fs[1..], hidden, g);
      j := j + 1;
    }
  }

  lemma PlaceKept(place: string -> int, children: seq<Field>, k: nat, hidden: set<string>)
    requires k < |children| && KeepsItsPlace(place, children, k)
    ensures ComesBack(place, children, k, hidden)
  {
    var left, right := Pruned(children[..k], hidden), Pruned(children[k + 1..], hidden);
    forall i | 0 <= i < |left| ensures place(left[i].id) <= place(children[k].id) {
      var j := LeftBelongs(children[..k], hidden, left[i]);
      assert children[..k][j] == children[j];
    }
    if right != [] {
      var j := LeftBelongs(children[k + 1..], hidden, right[0]);
      assert children[k + 1..][j] == children[j + k + 1];
    }
  }

  /** Siblings that can be told apart without their indices. */
  predicate DistinctModuloIndex(fs: seq<Field>) {
    forall i, j | 0 <= i < |fs| && 0 <= j < |fs| :: Matches(fs[i].id, fs[j].id) <==> i == j
  }

  /** Such siblings all keep their places. */
  lemma DistinctSiblingsKeepTheirPlaces(fs: seq<Field>, k: nat)
    requires DistinctModuloIndex(fs) && k < |fs|
    ensures KeepsItsPlace(PlaceIn(fs), fs, k)
  {
    forall j | 0 <= j < |fs| ensures SpecIndex(fs, fs[j].id) == j { SpecIndexIsFirst(fs, fs[j].id, j); }
  }

  /** The targets that always come back to their places. */
  predicate InPlace(content: seq<Field>, targets: set<string>) {
    forall id | id in targets && FindParent(content, id).Some? :: TargetInPlace(FindParent(content, id).value.children, id)
  }

  predicate TargetInPlace(children: seq<Field>, id: string) {
    forall k | 0 <= k < |children| && children[k].id == id :: KeepsItsPlace(PlaceIn(children), children, k)
  }

  // --------------------------------------------------------------------- one target

  lemma {:induction false} FoundIsIndependent(fs: seq<Field>, targets: set<string>, p: string)
    requires Unique(fs) && Independent(fs, targets) && p in Ids(fs)
    ensures var f := Find(fs, p).value;
      && Unique([f]) && Independent([f], targets) && Ids(Kids(f)) <= Ids(fs)
      && (f.Branch? ==> Unique(f.children) && Independent(f.children, targets) && p !in Ids(f.children))
  {
    var f := fs[0];
    if f.id == p {
      assert [f][1..] == [];
    } else if f.Branch? && p in Ids(f.children) {
      FoundIsIndependent(f.children, targets, p);
    } else {
      FoundIsIndependent(fs[1..], targets, p);
    }
  }

  lemma {:induction false} ParentIsClear(fs: seq<Field>, targets: set<string>, hidden: set<string>, p: string, id: string)
    requires Unique(fs) && Independent(fs, targets) && hidden <= targets && id in targets
    requires p in Ids(fs) ==> id in Ids(Kids(Find(fs, p).value))
    ensures Clear(fs, hidden, p)
  {
    if fs != [] {
      var f := fs[0];
      if f.Branch? {
        if p in Ids(f.children) {
          FoundIsIndependent(f.children, targets, p);
          assert p !in Ids(fs[1..]) && p != f.id;
        }
        ParentIsClear(f.children, targets, hidden, p, id);
      }
      if p in Ids(fs[1..]) { assert p !in Ids(Kids(f)) && p != f.id; }
      ParentIsClear(fs[1..], targets, hidden, p, id);
    }
  }

  lemma {:induction false} TargetIsClear(fs: seq<Field>, targets: set<string>, hidden: set<string>, id: string)
    requires Independent(fs, targets) && hidden <= targets && id in targets && id !in hidden
    ensures Clear(fs, hidden, id)
  {
    if fs != [] {
      if fs[0].Branch? { TargetIsClear(fs[0].children, targets, hidden, id); }
      TargetIsClear(fs[1..], targets, hidden, id);
    }
  }

  lemma {:induction false} ChildAt(fs: seq<Field>, id: string) returns (k: nat)
    requires Unique(fs) && HasChild(fs, id)
    ensures k < |fs| && fs[k].id == id && Find(fs, id) == Some(fs[k])
  {
    NotInside(fs, id);
    if fs[0].id == id {
      k := 0;
    } else {
      k := ChildAt(fs[1..], id);
      k := k + 1;
    }
  }

  lemma {:induction false} ChildIsIndependent(fs: seq<Field>, targets: set<string>, k: nat)
    requires Independent(fs, targets) && k < |fs| && fs[k].id in targets
    ensures Ids(Kids(fs[k])) !! targets
  {
    if k > 0 { ChildIsIndependent(fs[1..], targets, k - 1); }
  }

  /** Equal, or at least the same but for the order of siblings. */
  ghost predicate Alike(exact: bool, fs: seq<Field>, gs: seq<Field>) {
    if exact then fs == gs else SameTrees(fs, gs)
  }

  lemma {:induction false} PrunedUnique(fs: seq<Field>, hidden: set<string>)
    requires Unique(fs)
    ensures Unique(Pruned(fs, hidden))
  {
    if fs != [] {
      PrunedUnique(fs[1..], hidden);
      if fs[0].Branch? { PrunedUnique(fs[0].children, hidden); }
    }
  }

  /** The parent of a target in a form where some fields are hidden. */
  lemma ParentOnForm(content: seq<Field>, targets: set<string>, hidden: set<string>, id: string)
    requires Ruled(content, targets) && hidden <= targets && id in targets
    ensures var p := FindParent(content, id).value;
      && Find(Pruned(content, hidden), p.id) == Some(PrunedField(p, hidden))
      && Clear(content, hidden, p.id) && p.id in Ids(content) && Find(content, p.id) == Some(p)
      && Unique(p.children) && Independent(p.children, targets)
      && id in Ids(p.children) && id != p.id && id in Ids(content)
    ensures Find(Pruned(content, hidden), id).None? <==> id in hidden
  {
    var p := FindParent(content, id).value;
    ParentIsFound(content, id);
    HasChildInIds(p.children, id);
    FoundIsIndependent(content, targets, p.id);
    ParentIsClear(content, targets, hidden, p.id, id);
    FindPruned(content, hidden, p.id);
    if id !in hidden {
      TargetIsClear(content, targets, hidden, id);
      FindPruned(content, hidden, id);
    }
  }

  /** The children of a rule's parent after one target has been shown or hidden. */
  lemma RuledChildren(p: Field, targets: set<string>, hidden: set<string>, id: string, doInclude: bool, current: seq<Field>, exact: bool)
    requires p.Branch? && HasChild(p.children, id) && Unique(p.children) && Independent(p.children, targets)
    requires hidden <= targets && id in targets && (doInclude ==> id in hidden)
    requires exact ==> TargetInPlace(p.children, id)
    requires Alike(exact, current, Pruned(p.children, hidden))
    ensures Alike(exact, ChildrenWith(p, current, id, doInclude),
                  Pruned(p.children, if doInclude then hidden - {id} else hidden + {id}))
  {
    var children := p.children;
    if doInclude {
      var k := ChildAt(children, id);
      ChildIsIndependent(children, targets, k);
      if exact {
        PlaceKept(PlaceIn(children), children, k, hidden);
        ChildComesBackIff(PlaceIn(children), children, k, hidden);
      } else {
        ShownInAnyOrder(children, k, hidden, current, InsertionPoint(PlaceIn(children), current, SpecIndex(children, id)));
      }
    } else {
      RemoveHidden(children, hidden, id);
      if !exact { SameRemoved(current, Pruned(children, hidden), id); }
    }
  }

  lemma ShownInAnyOrder(children: seq<Field>, k: nat, hidden: set<string>, current: seq<Field>, i: nat)
    requires k < |children| && Unique(children) && children[k].id in hidden && Ids(Kids(children[k])) !! hidden
    requires SameTrees(current, Pruned(children, hidden)) && i <= |current|
    ensures SameTrees(Inserted(current, i, children[k]), Pruned(children, hidden - {children[k].id}))
  {
    var left, right := Pruned(children[..k], hidden), Pruned(children[k + 1..], hidden);
    AroundHidden(children, k, hidden);
    SameInserted(current, left + right, i, |left|, children[k]);
    assert Inserted(left + right, |left|, children[k]) == left + [children[k]] + right;
  }

  /** What one target finds on a form that is alike. */
  lemma TargetFinds(content: seq<Field>, targets: set<string>, hidden: set<string>, form: seq<Field>, id: string, exact: bool)
    requires Ruled(content, targets) && hidden <= targets && id in targets && Alike(exact, form, Pruned(content, hidden))
    ensures var p := FindParent(content, id).value;
      var now := Find(form, p.id);
      && now.Some? && now.value.Branch? && Alike(exact, now.value.children, Pruned(p.children, hidden))
      && (Find(form, id).None? <==> id in hidden) && Unique(form) && p.id in Ids(form)
  {
    ParentOnForm(content, targets, hidden, id);
    PrunedUnique(content, hidden);
    if !exact {
      SameIds(form, Pruned(content, hidden));
      SameFound(form, Pruned(content, hidden), FindParent(content, id).value.id);
    }
  }

  /** One target of one rule: it is shown or hidden, and nothing else changes; at its place
      when places are kept, and else somewhere among its siblings. */
  lemma TargetStep(content: seq<Field>, targets: set<string>, hidden: set<string>, form: seq<Field>, id: string, doInclude: bool, exact: bool)
    requires Ruled(content, targets) && hidden <= targets && id in targets && Alike(exact, form, Pruned(content, hidden))
    requires exact ==> InPlace(content, targets)
    ensures FindParent(content, id).Some?
    ensures Alike(exact, IncludeOrRemove(content, form, id, doInclude),
                  Pruned(content, if doInclude then hidden - {id} else hidden + {id}))
  {
    var h2 := if doInclude then hidden - {id} else hidden + {id};
    TargetFinds(content, targets, hidden, form, id, exact);
    if doInclude == (id in hidden) {
      TargetChanges(content, targets, hidden, form, id, doInclude, exact);
    } else {
      assert h2 == hidden;
    }
  }

  lemma TargetChanges(content: seq<Field>, targets: set<string>, hidden: set<string>, form: seq<Field>, id: string, doInclude: bool, exact: bool)
    requires Ruled(content, targets) && hidden <= targets && id in targets && Alike(exact, form, Pruned(content, hidden))
    requires (exact ==> InPlace(content, targets)) && doInclude == (id in hidden)
    ensures var p := FindParent(content, id).value;
      var now := Find(form, p.id);
      && now.Some? && now.value.Branch?
      && Alike(exact, WithChildren(form, p.id, ChildrenWith(p, now.value.children, id, doInclude)),
               Pruned(content, if doInclude then hidden - {id} else hidden + {id}))
  {
    var p, h2 := FindParent(content, id).value, if doInclude then hidden - {id} else hidden + {id};
    ParentOnForm(content, targets, hidden, id);
    TargetFinds(content, targets, hidden, form, id, exact);
    var current := Find(form, p.id).value.children;
    RuledChildren(p, targets, hidden, id, doInclude, current, exact);
    PruneBelow(content, hidden, h2, p.id, id);
    if !exact {
      SameChanged(form, Pruned(content, hidden), p.id, ChildrenWith(p, current, id, doInclude), Pruned(p.children, h2));
    }
  }

  /** When exactly showing one hidden target gives the form with that target, in its place. */
  lemma ShowingRestoresIff(content: seq<Field>, targets: set<string>, hidden: set<string>, id: string) returns (k: nat)
    requires Ruled(content, targets) && hidden <= targets && id in hidden
    ensures FindParent(content, id).Some?
    ensures var children := FindParent(content, id).value.children;
      && k < |children| && children[k].id == id
      && (IncludeOrRemove(content, Pruned(content, hidden), id, true) == Pruned(content, hidden - {id}) <==>
          ComesBack(PlaceIn(children), children, k, hidden))
  {
    var p, form, h2 := FindParent(content, id).value, Pruned(content, hidden), hidden - {id};
    ParentOnForm(content, targets, hidden, id);
    k := ChildAt(p.children, id);
    ChildIsIndependent(p.children, targets, k);
    ChildComesBackIff(PlaceIn(p.children), p.children, k, hidden);
    PruneBelow(content, hidden, h2, p.id, id);
    var kids := ChildrenWith(p, Pruned(p.children, hidden), id, true);
    FindChanged(form, p.id, kids);
    FindChanged(form, p.id, Pruned(p.children, h2));
  }

  // ----------------------------------------------------------------------- all rules

  function HiddenAfterTargets(ids: seq<string>, doInclude: bool, hidden: set<string>): set<string> {
    if doInclude then hidden - (set id | id in ids) else hidden + (set id | id in ids)
  }

  lemma {:induction false} TargetsStep(content: seq<Field>, targets: set<string>, hidden: set<string>, form: seq<Field>, ids: seq<string>, doInclude: bool, exact: bool)
    requires Ruled(content, targets) && hidden <= targets && (forall id | id in ids :: id in targets)
    requires Alike(exact, form, Pruned(content, hidden)) && (exact ==> InPlace(content, targets))
    ensures TargetsOk(content, ids)
    ensures Alike(exact, ApplyTargets(content, form, ids, doInclude), Pruned(content, HiddenAfterTargets(ids, doInclude, hidden)))
    decreases |ids|
  {
    if ids == [] {
      assert HiddenAfterTargets(ids, doInclude, hidden) == hidden;
    } else {
      var h2 := if doInclude then hidden - {ids[0]} else hidden + {ids[0]};
      TargetStep(content, targets, hidden, form, ids[0], doInclude, exact);
      TargetsStep(content, targets, h2, IncludeOrRemove(content, form, ids[0], doInclude), ids[1..], doInclude, exact);
      assert HiddenAfterTargets(ids[1..], doInclude, h2) == HiddenAfterTargets(ids, doInclude, hidden);
    }
  }

  function Includes(rule: Rule, answers: Answers): bool {
    TextAt(answers, rule.triggerId) == rule.triggerValue
  }

  /** The last rule about a field decides; a field without rules stays. */
  predicate Hides(rules: seq<Rule>, answers: Answers, id: string, otherwise: bool) {
    if rules == [] then otherwise
    else
      var last := rules[|rules| - 1];
      if last.ruleType == "includeIf" && id in last.targetIds then !Includes(last, answers)
      else Hides(rules[..|rules| - 1], answers, id, otherwise)
  }

  /** The fields that the rules hide, as far as the answers go. */
  function HiddenBy(rules: seq<Rule>, answers: Answers, targets: set<string>): set<string> {
    set id | id in targets && Hides(rules, answers, id, false)
  }

  predicate TargetedOnly(rules: seq<Rule>, targets: set<string>) {
    forall i, id | 0 <= i < |rules| && rules[i].ruleType == "includeIf" && id in rules[i].targetIds :: id in targets
  }

  predicate AllTargeted(rules: seq<Rule>, targets: set<string>) {
    forall id | id in targets :: exists i :: 0 <= i < |rules| && rules[i].ruleType == "includeIf" && id in rules[i].targetIds
  }

  function HiddenAfter(rules: seq<Rule>, answers: Answers, hidden: set<string>, targets: set<string>): set<string> {
    set id | id in targets && Hides(rules, answers, id, id in hidden)
  }

  lemma {:induction false} FirstRuleDecides(rules: seq<Rule>, answers: Answers, id: string, otherwise: bool)
    requires rules != []
    ensures Hides(rules, answers, id, otherwise) == Hides(rules[1..], answers, id,
      if rules[0].ruleType == "includeIf" && id in rules[0].targetIds then !Includes(rules[0], answers) else otherwise)
  {
    if |rules| > 1 {
      assert rules[1..][..|rules| - 2] == rules[..|rules| - 1][1..];
      FirstRuleDecides(rules[..|rules| - 1], answers, id, otherwise);
    } else {
      assert Hides(rules[..0], answers, id, otherwise) == otherwise;
    }
  }

  lemma RulesAreOk(content: seq<Field>, targets: set<string>, rules: seq<Rule>)
    requires Ruled(content, targets) && TargetedOnly(rules, targets)
    ensures RulesOk(content, rules)
  {
    forall i, k | 0 <= i < |rules| && rules[i].ruleType == "includeIf" && 0 <= k < |rules[i].targetIds|
      ensures FindParent(content, rules[i].targetIds[k]).Some?
    {
      assert rules[i].targetIds[k] in rules[i].targetIds;
    }
  }

  lemma {:induction false} RulesStep(content: seq<Field>, targets: set<string>, hidden: set<string>, form: seq<Field>, rules: seq<Rule>, answers: Answers, exact: bool)
    requires Ruled(content, targets) && hidden <= targets && TargetedOnly(rules, targets)
    requires Alike(exact, form, Pruned(content, hidden)) && (exact ==> InPlace(content, targets))
    ensures RulesOk(content, rules)
    ensures Alike(exact, ApplyRules(content, form, rules, answers), Pruned(content, HiddenAfter(rules, answers, hidden, targets)))
    decreases |rules|
  {
    RulesAreOk(content, targets, rules);
    if rules == [] {
      assert HiddenAfter(rules, answers, hidden, targets) == hidden;
    } else if rules[0].ruleType != "includeIf" {
      RulesStep(content, targets, hidden, form, rules[1..], answers, exact);
      FirstHidden(rules, answers, hidden, targets);
    } else {
      var ids, shows := rules[0].targetIds, Includes(rules[0], answers);
      TargetsStep(content, targets, hidden, form, ids, shows, exact);
      RulesStep(content, targets, HiddenAfterTargets(ids, shows, hidden), ApplyTargets(content, form, ids, shows), rules[1..], answers, exact);
      FirstHidden(rules, answers, hidden, targets);
    }
  }

  lemma FirstHidden(rules: seq<Rule>, answers: Answers, hidden: set<string>, targets: set<string>)
    requires rules != [] && hidden <= targets && TargetedOnly(rules, targets)
    ensures var h2 := if rules[0].ruleType == "includeIf"
        then HiddenAfterTargets(rules[0].targetIds, Includes(rules[0], answers), hidden) else hidden;
      HiddenAfter(rules[1..], answers, h2, targets) == HiddenAfter(rules, answers, hidden, targets)
  {
    forall id | id in targets { FirstRuleDecides(rules, answers, id, id in hidden); }
  }

  lemma {:induction false} TargetedIsDecided(rules: seq<Rule>, answers: Answers, id: string, o1: bool, o2: bool)
    requires exists i :: 0 <= i < |rules| && rules[i].ruleType == "includeIf" && id in rules[i].targetIds
    ensures Hides(rules, answers, id, o1) == Hides(rules, answers, id, o2)
  {
    var i :| 0 <= i < |rules| && rules[i].ruleType == "includeIf" && id in rules[i].targetIds;
    if i < |rules| - 1 {
      assert rules[..|rules| - 1][i] == rules[i];
      TargetedIsDecided(rules[..|rules| - 1], answers, id, o1, o2);
    }
  }

  /** Whatever was hidden before, applying the rules gives the form without exactly the
      fields that the current answers hide: up to the order of siblings on every form, and
      exactly when the targets keep their places. */
  lemma RulesForgetThePast(content: seq<Field>, targets: set<string>, hidden: set<string>, form: seq<Field>, rules: seq<Rule>, answers: Answers, exact: bool)
    requires Ruled(content, targets) && hidden <= targets && TargetedOnly(rules, targets) && AllTargeted(rules, targets)
    requires Alike(exact, form, Pruned(content, hidden)) && (exact ==> InPlace(content, targets))
    ensures RulesOk(content, rules)
    ensures Alike(exact, ApplyRules(content, form, rules, answers), Pruned(content, HiddenBy(rules, answers, targets)))
  {
    RulesStep(content, targets, hidden, form, rules, answers, exact);
    forall id | id in targets ensures Hides(rules, answers, id, id in hidden) == Hides(rules, answers, id, false) {
      TargetedIsDecided(rules, answers, id, id in hidden, false);
    }
    assert HiddenAfter(rules, answers, hidden, targets) == HiddenBy(rules, answers, targets);
  }

  /** The form after the rules have been applied at every one of a sequence of answers. */
  function FormAfter(content: seq<Field>, form: seq<Field>, rules: seq<Rule>, history: seq<Answers>): seq<Field>
    requires RulesOk(content, rules)
  {
    if history == [] then form
    else ApplyRules(content, FormAfter(content, form, rules, history[..|history| - 1]), rules, history[|history| - 1])
  }

  /** History independence: after any sequence of answers the form is what the last answers
      alone make of the specification, but for the order of siblings that lose their place. */
  lemma {:induction false} FormDependsOnLastAnswers(content: seq<Field>, targets: set<string>, rules: seq<Rule>, history: seq<Answers>, exact: bool)
    requires Ruled(content, targets) && TargetedOnly(rules, targets) && AllTargeted(rules, targets) && history != []
    requires exact ==> InPlace(content, targets)
    ensures RulesOk(content, rules)
    ensures Alike(exact, FormAfter(content, content, rules, history), Pruned(content, HiddenBy(rules, history[|history| - 1], targets)))
  {
    var front, last := history[..|history| - 1], history[|history| - 1];
    RulesAreOk(content, targets, rules);
    if front == [] {
      PrunedNothing(content, exact);
      RulesForgetThePast(content, targets, {}, content, rules, last, exact);
    } else {
      FormDependsOnLastAnswers(content, targets, rules, front, exact);
      RulesForgetThePast(content, targets, HiddenBy(rules, front[|front| - 1], targets), FormAfter(content, content, rules, front), rules, last, exact);
    }
  }

  lemma PrunedNothing(fs: seq<Field>, exact: bool)
    ensures Alike(exact, fs, Pruned(fs, {}))
  {
    PruneNone(fs, {});
    SameItself(fs);
  }

  /** Hiding by other answers and then going back restores the form; applying the rules
      twice is the same as once. */
  lemma HideThenShowRestores(content: seq<Field>, targets: set<string>, rules: seq<Rule>, a: Answers, b: Answers)
    requires Ruled(content, targets) && InPlace(content, targets) && TargetedOnly(rules, targets) && AllTargeted(rules, targets)
    ensures RulesOk(content, rules)
    ensures var form := ApplyRules(content, content, rules, a);
      && ApplyRules(content, form, rules, a) == form
      && ApplyRules(content, ApplyRules(content, form, rules, b), rules, a) == form
  {
    PrunedNothing(content, true);
    var formA, formB := Pruned(content, HiddenBy(rules, a, targets)), Pruned(content, HiddenBy(rules, b, targets));
    RulesForgetThePast(content, targets, {}, content, rules, a, true);
    RulesForgetThePast(content, targets, HiddenBy(rules, a, targets), formA, rules, a, true);
    RulesForgetThePast(content, targets, HiddenBy(rules, a, targets), formA, rules, b, true);
    RulesForgetThePast(content, targets, HiddenBy(rules, b, targets), formB, rules, a, true);
  }

  function Filtered(fs: seq<Field>, hidden: set<string>): seq<string> {
    if fs == [] then []
    else (if fs[0].id in hidden then [] else [fs[0].id]) + Filtered(fs[1..], hidden)
  }

  lemma {:induction false} PrunedIds(fs: seq<Field>, hidden: set<string>)
    ensures ChildIds(Pruned(fs, hidden)) == Filtered(fs, hidden)
  {
    if fs != [] {
      PrunedIds(fs[1..], hidden);
      var rest := Pruned(fs[1..], hidden);
      if fs[0].id !in hidden {
        assert Pruned(fs, hidden)[1..] == rest;
        assert ChildIds(Pruned(fs, hidden)) == [fs[0].id] + ChildIds(rest);
      }
    }
  }

  /** The children of a rule's parent are the specification's, in that order, without
      those that the last answers hide. */
  lemma RuleParentAfter(content: seq<Field>, targets: set<string>, rules: seq<Rule>, history: seq<Answers>, id: string)
    requires Ruled(content, targets) && InPlace(content, targets) && TargetedOnly(rules, targets) && AllTargeted(rules, targets)
    requires history != [] && id in targets
    ensures RulesOk(content, rules) && FindParent(content, id).Some?
    ensures var p := FindParent(content, id).value;
      var now := Find(FormAfter(content, content, rules, history), p.id);
      now.Some? && now.value.Branch? &&
      ChildIds(now.value.children) == Filtered(p.children, HiddenBy(rules, history[|history| - 1], targets))
  {
    var p, hidden := FindParent(content, id).value, HiddenBy(rules, history[|history| - 1], targets);
    FormDependsOnLastAnswers(content, targets, rules, history, true);
    ParentOnForm(content, targets, hidden, id);
    PrunedIds(p.children, hidden);
  }

  // --------------------------------------------------------- fields that lose their place

  /** A target whose next sibling has no later place does not come back to where it was. */
  lemma FollowerTakesThePlace(content: seq<Field>, targets: set<string>, id: string, k: nat)
    requires Ruled(content, targets) && id in targets
    requires var children := FindParent(content, id).value.children;
      && k + 1 < |children| && children[k].id == id && children[k + 1].id !in targets
      && SpecIndex(children, children[k + 1].id) <= SpecIndex(children, id)
    ensures IncludeOrRemove(content, IncludeOrRemove(content, content, id, false), id, true) != content
  {
    var children := FindParent(content, id).value.children;
    PrunedNothing(content, true);
    Hidden(content, targets, id);
    var m := ShowingRestoresIff(content, targets, {id}, id);
    ParentOnForm(content, targets, {}, id);
    OnlyChildWithId(children, m, k);
    var right := Pruned(children[k + 1..], {id});
    assert children[k + 1..][0] == children[k + 1];
    assert right != [] && right[0].id == children[k + 1].id;
    assert {id} - {id} == {};
  }

  lemma Hidden(content: seq<Field>, targets: set<string>, id: string)
    requires Ruled(content, targets) && id in targets
    ensures IncludeOrRemove(content, content, id, false) == Pruned(content, {id})
  {
    ParentOnForm(content, targets, {}, id);
    PrunedNothing(content, true);
    var p := FindParent(content, id).value;
    PruneNone(p.children, {});
    RemoveHidden(p.children, {}, id);
    PruneBelow(content, {}, {id}, p.id, id);
    assert {} + {id} == {id};
  }

  lemma OnlyChildWithId(children: seq<Field>, i: nat, j: nat)
    requires Unique(children) && i < |children| && j < |children| && children[i].id == children[j].id
    ensures i == j
  {
    if i < j { ApartIds(children, i); ChildIsInIds(children[i + 1..], children[i + 1..][j - i - 1]); }
    if j < i { ApartIds(children, j); ChildIsInIds(children[j + 1..], children[j + 1..][i - j - 1]); }
  }

  lemma {:induction false} PlaceAtMost(spec: seq<Field>, id: string, k: nat)
    requires k < |spec| && Matches(id, spec[k].id)
    ensures 0 <= SpecIndex(spec, id) <= k
  {
    if k > 0 && !Matches(id, spec[0].id) { PlaceAtMost(spec[1..], id, k - 1); }
  }

  lemma {:induction false} PlaceAtLeast(spec: seq<Field>, id: string, k: nat)
    requires k <= |spec| && forall i | 0 <= i < k :: !Matches(id, spec[i].id)
    ensures SpecIndex(spec, id) < 0 || SpecIndex(spec, id) >= k
  {
    if k > 0 {
      forall i | 0 <= i < k - 1 ensures !Matches(id, spec[1..][i].id) { assert spec[1..][i] == spec[i + 1]; }
      PlaceAtLeast(spec[1..], id, k - 1);
    }
  }

  lemma DoesNotMatch(sought: string, given: string)
    requires sought != "" && WithoutIndex(sought) == Some(sought) && given != sought && WithoutIndex(given) != Some(sought)
    ensures !Matches(sought, given)
  {
  }

  /** So it is when the sibling behind the target has the name of an earlier one, but for
      the number, as textArea-4 behind gp-wrap has textArea-1's in the interim report. */
  lemma NumberedFollowerTakesThePlace(content: seq<Field>, targets: set<string>, id: string, k: nat, m: nat, base: string, i: nat, j: nat)
    requires Ruled(content, targets) && id in targets && id != "" && WithoutIndex(id) == Some(id)
    requires base != "" && base != id && Dotless(base)
    requires var children := FindParent(content, id).value.children;
      && m < k && k + 1 < |children| && children[k].id == id
      && children[m].id == RowName(base, i) && children[k + 1].id == RowName(base, j) && RowName(base, j) !in targets
      && forall n | 0 <= n <= m :: WithoutIndex(children[n].id) != Some(id) && children[n].id != id
    ensures IncludeOrRemove(content, IncludeOrRemove(content, content, id, false), id, true) != content
  {
    var children := FindParent(content, id).value.children;
    RowWithoutIndex(base, i);
    RowWithoutIndex(base, j);
    forall n | 0 <= n < m + 1 ensures !Matches(id, children[n].id) { DoesNotMatch(id, children[n].id); }
    PlaceAtLeast(children, id, m + 1);
    PlaceAtMost(children, id, k);
    PlaceAtMost(children, children[k + 1].id, m);
    FollowerTakesThePlace(content, targets, id, k);
  }

  /** The smallest such form, for any names: with `a` hidden and shown again between x-1
      and x-2, x-2 comes before it. */
  lemma SmallFormLosesItsOrder(p: string, x: string, a: string)
    requires x != "" && Dotless(x) && a != "" && WithoutIndex(a) == Some(a) && a != x
    requires p != a && p != RowName(x, 1) && p != RowName(x, 2)
    ensures var x1, mid, x2 := Leaf(RowName(x, 1), "textArea"), Leaf(a, "fieldset"), Leaf(RowName(x, 2), "textArea");
      var content := [Branch(p, "theme", [x1, mid, x2])];
      && FindParent(content, a).Some?
      && IncludeOrRemove(content, IncludeOrRemove(content, content, a, false), a, true)
         == [Branch(p, "theme", [x1, x2, mid])]
  {
    var x1, mid, x2 := Leaf(RowName(x, 1), "textArea"), Leaf(a, "fieldset"), Leaf(RowName(x, 2), "textArea");
    RowWithoutIndex(x, 1);
    RowWithoutIndex(x, 2);
    SmallIds(x1.id, x2.id, x, a);
    SmallPlaces([x1, mid, x2]);
    ShownLast(p, x1, mid, x2);
  }

  lemma SmallIds(x1: string, x2: string, x: string, a: string)
    requires x1 != "" && x2 != "" && x != "" && WithoutIndex(x1) == Some(x) && WithoutIndex(x2) == Some(x)
    requires a != "" && WithoutIndex(a) == Some(a) && a != x
    ensures Matches(x1, x1) && Matches(x2, x1) && Matches(a, a) && !Matches(a, x1) && a != x1 && a != x2
  {
    DoesNotMatch(a, x1);
  }

  lemma SmallPlaces(children: seq<Field>)
    requires |children| == 3
    requires Matches(children[0].id, children[0].id) && Matches(children[2].id, children[0].id)
    requires Matches(children[1].id, children[1].id) && !Matches(children[1].id, children[0].id)
    ensures SpecIndex(children, children[0].id) == 0 && SpecIndex(children, children[2].id) == 0
    ensures SpecIndex(children, children[1].id) == 1
  {
    FirstPlace(children, children[0].id);
    FirstPlace(children, children[2].id);
    SecondPlace(children, children[1].id);
  }

  lemma FirstPlace(spec: seq<Field>, id: string)
    requires spec != [] && Matches(id, spec[0].id)
    ensures SpecIndex(spec, id) == 0
  {
  }

  lemma SecondPlace(spec: seq<Field>, id: string)
    requires |spec| >= 2 && !Matches(id, spec[0].id) && Matches(id, spec[1].id)
    ensures SpecIndex(spec, id) == 1
  {
    FirstPlace(spec[1..], id);
  }

  lemma ShownLast(p: string, x1: Field, a: Field, x2: Field)
    requires x1.Leaf? && a.Leaf? && x2.Leaf? && p != a.id && x1.id != a.id && x2.id != a.id && x1.id != p && x2.id != p
    requires var children := [x1, a, x2];
      SpecIndex(children, x1.id) == 0 && SpecIndex(children, x2.id) == 0 && SpecIndex(children, a.id) == 1
    ensures var content := [Branch(p, "theme", [x1, a, x2])];
      && FindParent(content, a.id).Some?
      && IncludeOrRemove(content, IncludeOrRemove(content, content, a.id, false), a.id, true)
         == [Branch(p, "theme", [x1, x2, a])]
  {
    var children, parent := [x1, a, x2], Branch(p, "theme", [x1, a, x2]);
    OnlyParent(p, x1, a, x2);
    SmallRemoval(x1, a, x2);
    SmallPoint(PlaceIn(children), x1, x2);
    InsertedLast(x1, x2, a);
  }

  lemma OnlyParent(p: string, x1: Field, a: Field, x2: Field)
    requires x1.Leaf? && a.Leaf? && x2.Leaf? && p != a.id && x1.id != a.id && x2.id != a.id && x1.id != p && x2.id != p
    ensures var parent := Branch(p, "theme", [x1, a, x2]);
      && FindParent([parent], a.id) == Some(parent) && Find([parent], p) == Some(parent)
      && Find([parent], a.id) == Some(a) && Find([x1, a, x2], a.id) == Some(a)
    ensures var less := Branch(p, "theme", [x1, x2]);
      Find([less], p) == Some(less) && Find([less], a.id) == None
    ensures forall kids, more: seq<Field> :: WithChildren([Branch(p, "theme", kids)], p, more) == [Branch(p, "theme", more)]
  {
    assert a in [x1, a, x2];
    assert [x1, a, x2] == [x1] + [a, x2] && [a, x2] == [a] + [x2] && [x1, x2] == [x1] + [x2];
    SkippedLeaf(x1, [a, x2], a.id);
    SkippedLeaf(x1, [x2], a.id);
    SkippedLeaf(x2, [], a.id);
    assert [x2] + [] == [x2];
  }

  lemma SkippedLeaf(f: Field, rest: seq<Field>, id: string)
    requires f.Leaf? && f.id != id
    ensures Find([f] + rest, id) == Find(rest, id) && RemoveById([f] + rest, id) == [f] + RemoveById(rest, id)
  {
    assert ([f] + rest)[1..] == rest;
  }

  lemma SmallRemoval(x1: Field, a: Field, x2: Field)
    requires x1.Leaf? && x2.Leaf? && x1.id != a.id && x2.id != a.id
    ensures RemoveById([x1, a, x2], a.id) == [x1, x2]
  {
    assert [x1, a, x2] == [x1] + [a, x2] && [a, x2][1..] == [x2] && [x2] == [x2] + [];
    SkippedLeaf(x1, [a, x2], a.id);
    SkippedLeaf(x2, [], a.id);
  }

  lemma SmallPoint(place: string -> int, x1: Field, x2: Field)
    requires place(x1.id) == 0 && place(x2.id) == 0
    ensures InsertionPoint(place, [x1, x2], 1) == 2
  {
    assert [x1, x2] == [x1, x2] + [];
    PointIff(place, [x1, x2], [], 1);
  }

  lemma InsertedLast(x1: Field, x2: Field, a: Field)
    ensures Inserted([x1, x2], 2, a) == [x1, x2, a]
  {
  }
}
