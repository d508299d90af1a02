/** Laws of form trees: ids in lists of trees, parents, and replaced children. */
module TreeLaws {
  import opened Options
  import opened FormTree

  lemma {:induction false} IdsAppend(xs: seq<Field>, ys: seq<Field>)
    ensures Ids(xs + ys) == Ids(xs) + Ids(ys)
  {
    if xs == [] { assert xs + ys == ys; } else {
      assert (xs + ys)[1..] == xs[1..] + ys;
      IdsAppend(xs[1..], ys);
    }
  }

  lemma {:induction false} UniqueAppend(xs: seq<Field>, ys: seq<Field>)
    ensures Unique(xs + ys) <==> Unique(xs) && Unique(ys) && Ids(xs) !! Ids(ys)
  {
    if xs == [] { assert xs + ys == ys; } else {
      assert (xs + ys)[1..] == xs[1..] + ys;
      IdsAppend(xs[1..], ys);
      UniqueAppend(xs[1..], ys);
    }
  }

  lemma Swapped(xs: seq<Field>, ys: seq<Field>)
    ensures Ids(xs + ys) == Ids(ys + xs) && (Unique(xs + ys) <==> Unique(ys + xs))
  {
    IdsAppend(xs, ys);
    IdsAppend(ys, xs);
    UniqueAppend(xs, ys);
    UniqueAppend(ys, xs);
  }

  /** Where a field stands among its siblings does not matter for their ids. */
  lemma ToFront(xs: seq<Field>, f: Field, ys: seq<Field>)
    ensures Ids(xs + [f] + ys) == Ids([f] + (xs + ys))
    ensures Unique(xs + [f] + ys) <==> Unique([f] + (xs + ys))
  {
    Swapped(xs, [f]);
    assert [f] + (xs + ys) == [f] + xs + ys;
    IdsAppend(xs + [f], ys);
    IdsAppend([f] + xs, ys);
    UniqueAppend(xs + [f], ys);
    UniqueAppend([f] + xs, ys);
  }

  lemma InsertedIds(fs: seq<Field>, k: nat, f: Field)
    requires k <= |fs|
    ensures Ids(Inserted(fs, k, f)) == Ids(fs) + Ids([f])
    ensures Unique(Inserted(fs, k, f)) <==> Unique(fs) && Unique([f]) && Ids(fs) !! Ids([f])
  {
    InsertedBetween(fs[..k], f, fs[k..]);
    Rejoined(fs, k);
  }

  lemma Rejoined(fs: seq<Field>, k: nat)
    requires k <= |fs|
    ensures fs[..k] + fs[k..] == fs
  {
  }

  lemma InsertedBetween(xs: seq<Field>, f: Field, ys: seq<Field>)
    ensures Ids(xs + [f] + ys) == Ids(xs + ys) + Ids([f])
    ensures Unique(xs + [f] + ys) <==> Unique(xs + ys) && Unique([f]) && Ids(xs + ys) !! Ids([f])
  {
    ToFront(xs, f, ys);
    IdsAppend([f], xs + ys);
    UniqueAppend([f], xs + ys);
  }

  /** The ids below the top of the trees. */
  function BelowIds(fs: seq<Field>): set<string> {
    if fs == [] then {} else Ids(Kids(fs[0])) + BelowIds(fs[1..])
  }

  lemma {:induction false} TopIsNotBelow(fs: seq<Field>, id: string)
    requires Unique(fs) && HasChild(fs, id)
    ensures id !in BelowIds(fs) && id in Ids(fs)
  {
    var f :| f in fs && f.id == id;
    ChildIsInIds(fs, f);
    if f == fs[0] {
      BelowIsInside(fs[1..]);
    } else {
      ChildIsInIds(fs[1..], f);
      TopIsNotBelow(fs[1..], id);
    }
  }

  lemma {:induction false} BelowIsInside(fs: seq<Field>)
    ensures BelowIds(fs) <= Ids(fs)
  {
    if fs != [] { BelowIsInside(fs[1..]); }
  }

  lemma {:induction false} FoundIsBelow(fs: seq<Field>, p: string)
    requires p in Ids(fs)
    ensures Ids(Kids(Find(fs, p).value)) <= BelowIds(fs)
  {
    var f := fs[0];
    if f.id != p {
      if f.Branch? && p in Ids(f.children) {
        FoundIsBelow(f.children, p);
        BelowIsInside(f.children);
      } else {
        FoundIsBelow(fs[1..], p);
      }
    }
  }

  lemma HasChildInIds(fs: seq<Field>, id: string)
    requires HasChild(fs, id)
    ensures id in Ids(fs)
  {
    var f :| f in fs && f.id == id;
    ChildIsInIds(fs, f);
  }

  /** The parent that is found is where its id says. */
  lemma {:induction false} ParentIsFound(fs: seq<Field>, id: string)
    requires Unique(fs) && FindParent(fs, id).Some?
    ensures Find(fs, FindParent(fs, id).value.id) == FindParent(fs, id)
  {
    var f := fs[0];
    if !HasChild(Kids(f), id) {
      if f.Branch? && FindParent(f.children, id).Some? {
        ParentIsFound(f.children, id);
      } else {
        ParentIsFound(fs[1..], id);
      }
    }
  }

  /** In unique trees a field has one parent. */
  lemma {:induction false} OneParent(fs: seq<Field>, p: Field, id: string)
    requires Unique(fs) && Find(fs, p.id) == Some(p) && HasChild(Kids(p), id)
    ensures FindParent(fs, id) == Some(p)
  {
    var f := fs[0];
    HasChildInIds(Kids(p), id);
    if f.id == p.id {
    } else if f.Branch? && p.id in Ids(f.children) {
      OneParent(f.children, p, id);
      FoundIsBelow(f.children, p.id);
      if HasChild(f.children, id) { TopIsNotBelow(f.children, id); }
    } else {
      OneParent(fs[1..], p, id);
      FoundIsBelow(fs[1..], p.id);
      BelowIsInside(fs[1..]);
      if f.Branch? && FindParent(f.children, id).Some? { ParentHoldsId(f.children, id); }
      if HasChild(Kids(f), id) { HasChildInIds(Kids(f), id); }
    }
  }

  lemma {:induction false} ParentHoldsId(fs: seq<Field>, id: string)
    requires FindParent(fs, id).Some?
    ensures id in BelowIds(fs) && id in Ids(fs)
  {
    var f := fs[0];
    BelowIsInside(fs);
    if HasChild(Kids(f), id) {
      HasChildInIds(Kids(f), id);
    } else if f.Branch? && FindParent(f.children, id).Some? {
      ParentHoldsId(f.children, id);
    } else {
      ParentHoldsId(fs[1..], id);
    }
  }

  lemma {:induction false} FindChanged(fs: seq<Field>, p: string, kids: seq<Field>)
    requires p in Ids(fs)
    ensures Find(WithChildren(fs, p, kids), p) == Some(Branch(p, Find(fs, p).value.fieldType, kids))
  {
    var f := fs[0];
    if f.id != p {
      if f.Branch? && p in Ids(f.children) {
        FindChanged(f.children, p, kids);
      } else {
        FindChanged(fs[1..], p, kids);
      }
    }
  }

  lemma {:induction false} ChangedTwice(fs: seq<Field>, p: string, kids: seq<Field>, kids2: seq<Field>)
    requires p in Ids(fs)
    ensures WithChildren(WithChildren(fs, p, kids), p, kids2) == WithChildren(fs, p, kids2)
  {
    var f := fs[0];
    if f.id != p {
      if f.Branch? && p in Ids(f.children) {
        ChangedTwice(f.children, p, kids, kids2);
        FindChanged(f.children, p, kids);
      } else {
        ChangedTwice(fs[1..], p, kids, kids2);
      }
    }
  }

  lemma {:induction false} Unchanged(fs: seq<Field>, p: string)
    requires p in Ids(fs) && Find(fs, p).value.Branch?
    ensures WithChildren(fs, p, Find(fs, p).value.children) == fs
  {
    var f := fs[0];
    if f.id != p {
      if f.Branch? && p in Ids(f.children) {
        Unchanged(f.children, p);
      } else {
        Unchanged(fs[1..], p);
      }
    }
  }

  /** The ids of a list that replaces the children of p, and new ones, do not clash. */
  ghost predicate Fits(fs: seq<Field>, before: seq<Field>, kids: seq<Field>) {
    Unique(kids) && forall id | id in Ids(kids) :: id in Ids(before) || id !in Ids(fs)
  }

  /** Replacing the children of one field keeps ids unique, if the new children fit. */
  lemma {:induction false} ChangedIds(fs: seq<Field>, p: string, kids: seq<Field>)
    requires Unique(fs) && p in Ids(fs) && Fits(fs, Kids(Find(fs, p).value), kids)
    ensures Unique(WithChildren(fs, p, kids))
    ensures Ids(WithChildren(fs, p, kids)) == Ids(fs) - Ids(Kids(Find(fs, p).value)) + Ids(kids)
  {
    var f, rest := fs[0], fs[1..];
    assert fs == [f] + rest;
    if f.id == p {
      FirstReplaced(f, rest, Branch(p, f.fieldType, kids));
    } else if f.Branch? && p in Ids(f.children) {
      var changed := WithChildren(f.children, p, kids);
      FirstAndRest(f, rest);
      InsideFound(f.children, p);
      ChangedIds(f.children, p, kids);
      ChildrenReplaced(f, rest, Kids(Find(f.children, p).value), kids, changed);
    } else {
      var changed := WithChildren(rest, p, kids);
      FirstAndRest(f, rest);
      InsideFound(rest, p);
      ChangedIds(rest, p, kids);
      RestReplaced(f, rest, Kids(Find(rest, p).value), kids, changed);
    }
  }

  lemma FirstReplaced(f: Field, rest: seq<Field>, g: Field)
    requires Unique([f] + rest) && g.id == f.id && Fits([f] + rest, Kids(f), Kids(g))
    ensures Unique([g] + rest) && Ids([g] + rest) == Ids([f] + rest) - Ids(Kids(f)) + Ids(Kids(g))
  {
    FirstAndRest(f, rest);
    FirstAndRest(g, rest);
  }

  lemma ChildrenReplaced(f: Field, rest: seq<Field>, before: seq<Field>, kids: seq<Field>, changed: seq<Field>)
    requires Unique([f] + rest) && f.Branch? && Fits([f] + rest, before, kids) && Ids(before) <= Ids(f.children)
    requires Unique(changed) && Ids(changed) == Ids(f.children) - Ids(before) + Ids(kids)
    ensures var all := [Branch(f.id, f.fieldType, changed)] + rest;
      Unique(all) && Ids(all) == Ids([f] + rest) - Ids(before) + Ids(kids)
  {
    FirstAndRest(f, rest);
    FirstAndRest(Branch(f.id, f.fieldType, changed), rest);
    Elsewhere({f.id} + Ids(rest), Ids(f.children), Ids(before), Ids(kids));
  }

  lemma RestReplaced(f: Field, rest: seq<Field>, before: seq<Field>, kids: seq<Field>, changed: seq<Field>)
    requires Unique([f] + rest) && Fits([f] + rest, before, kids) && Ids(before) <= Ids(rest)
    requires Unique(changed) && Ids(changed) == Ids(rest) - Ids(before) + Ids(kids)
    ensures Unique([f] + changed) && Ids([f] + changed) == Ids([f] + rest) - Ids(before) + Ids(kids)
  {
    FirstAndRest(f, rest);
    FirstAndRest(f, changed);
    Elsewhere({f.id} + Ids(Kids(f)), Ids(rest), Ids(before), Ids(kids));
  }

  /** Ids outside a part stay outside when some of the part are exchanged for new ones. */
  lemma Elsewhere(outside: set<string>, part: set<string>, before: set<string>, kids: set<string>)
    requires outside !! part && before <= part && forall id | id in kids :: id in before || id !in outside + part
    ensures outside !! (part - before + kids)
    ensures outside + part - before + kids == outside + (part - before + kids)
  {
  }

  lemma FirstAndRest(f: Field, rest: seq<Field>)
    ensures Ids([f] + rest) == {f.id} + Ids(Kids(f)) + Ids(rest)
    ensures Unique([f] + rest) <==>
      && f.id !in Ids(Kids(f)) && f.id !in Ids(rest) && Ids(Kids(f)) !! Ids(rest)
      && Unique(Kids(f)) && Unique(rest)
  {
    assert ([f] + rest)[1..] == rest;
  }

  lemma InsideFound(fs: seq<Field>, p: string)
    requires p in Ids(fs)
    ensures Ids(Kids(Find(fs, p).value)) <= Ids(fs)
  {
    FoundIsBelow(fs, p);
    BelowIsInside(fs);
  }

  lemma {:induction false} FoundIsUnique(fs: seq<Field>, p: string)
    requires Unique(fs) && p in Ids(fs)
    ensures Unique(Kids(Find(fs, p).value)) && Ids(Kids(Find(fs, p).value)) <= Ids(fs)
  {
    var f := fs[0];
    if f.id != p {
      if f.Branch? && p in Ids(f.children) { FoundIsUnique(f.children, p); } else { FoundIsUnique(fs[1..], p); }
    }
  }
}
