/** Form trees that are the same but for the order of siblings. */
module SiblingOrder {
  import opened Options
  import opened FormTree
  import opened TreeLaws

  ghost predicate SameField(f: Field, g: Field) {
    && f.id == g.id && f.fieldType == g.fieldType && (f.Leaf? <==> g.Leaf?)
    && (f.Branch? ==> SameTrees(f.children, g.children))
  }

  /** Every tree of the one list has its partner in the other. */
  ghost predicate SameTrees(fs: seq<Field>, gs: seq<Field>) {
    && |fs| == |gs|
    && (fs != [] ==> exists k :: 0 <= k < |gs| && SameField(fs[0], gs[k]) && SameTrees(fs[1..], Dropped(gs, k)))
  }

  lemma Partner(fs: seq<Field>, gs: seq<Field>) returns (k: nat)
    requires SameTrees(fs, gs) && fs != []
    ensures k < |gs| && SameField(fs[0], gs[k]) && SameTrees(fs[1..], Dropped(gs, k))
  {
    k :| 0 <= k < |gs| && SameField(fs[0], gs[k]) && SameTrees(fs[1..], Dropped(gs, k));
  }

  lemma PutBack(gs: seq<Field>, k: nat)
    requires k < |gs|
    ensures gs == Inserted(Dropped(gs, k), k, gs[k])
  {
  }

  lemma Pair(fs: seq<Field>, gs: seq<Field>, k: nat)
    requires fs != [] && k < |gs| && SameField(fs[0], gs[k]) && SameTrees(fs[1..], Dropped(gs, k))
    ensures SameTrees(fs, gs)
  {
  }

  lemma {:induction false} SameItself(fs: seq<Field>)
    ensures SameTrees(fs, fs)
    decreases fs
  {
    if fs != [] {
      if fs[0].Branch? { SameItself(fs[0].children); }
      SameItself(fs[1..]);
      assert Dropped(fs, 0) == fs[1..];
      Pair(fs, fs, 0);
    }
  }

  lemma {:induction false} SameIds(fs: seq<Field>, gs: seq<Field>)
    requires SameTrees(fs, gs)
    ensures Ids(fs) == Ids(gs) && (Unique(fs) <==> Unique(gs))
    decreases fs
  {
    if fs != [] {
      var k := Partner(fs, gs);
      PutBack(gs, k);
      SameIds(fs[1..], Dropped(gs, k));
      SameFieldIds(fs[0], gs[k]);
      InsertedIds(Dropped(gs, k), k, gs[k]);
      IdsAppend([fs[0]], fs[1..]);
      UniqueAppend([fs[0]], fs[1..]);
      assert fs == [fs[0]] + fs[1..];
    }
  }

  lemma {:induction false} SameFieldIds(f: Field, g: Field)
    requires SameField(f, g)
    ensures Ids([f]) == Ids([g]) && Ids(Kids(f)) == Ids(Kids(g)) && (Unique([f]) <==> Unique([g]))
    decreases f
  {
    if f.Branch? { SameIds(f.children, g.children); }
  }

  // -------------------------------------------------------------- finding a field

  lemma {:induction false} FindApart(xs: seq<Field>, g: Field, ys: seq<Field>, id: string)
    requires Unique(xs + [g] + ys)
    ensures Find(xs + [g] + ys, id) == if id in Ids([g]) then Find([g], id) else Find(xs + ys, id)
  {
    if xs == [] {
      assert xs + [g] + ys == [g] + ys && xs + ys == ys && ([g] + ys)[1..] == ys;
      UniqueAppend([g], ys);
    } else {
      var all := xs + [g] + ys;
      assert all[1..] == xs[1..] + [g] + ys && (xs + ys)[1..] == xs[1..] + ys && all[0] == xs[0];
      FindApart(xs[1..], g, ys, id);
      IdsAppend(xs[1..] + [g], ys);
      IdsAppend(xs[1..], [g]);
    }
  }

  /** A field is found in both, with the same inside. */
  lemma {:induction false} SameFound(fs: seq<Field>, gs: seq<Field>, id: string)
    requires SameTrees(fs, gs) && Unique(fs)
    ensures Find(fs, id).Some? <==> Find(gs, id).Some?
    ensures Find(fs, id).Some? ==> SameField(Find(fs, id).value, Find(gs, id).value)
    decreases fs
  {
    SameIds(fs, gs);
    if fs != [] {
      var k := Partner(fs, gs);
      PutBack(gs, k);
      FindApart(gs[..k], gs[k], gs[k + 1..], id);
      SameFieldIds(fs[0], gs[k]);
      if id in Ids([fs[0]]) {
        if fs[0].Branch? { SameFound(fs[0].children, gs[k].children, id); }
      } else {
        SameFound(fs[1..], Dropped(gs, k), id);
      }
    }
  }

  // ------------------------------------------------------------- replaced children

  lemma {:induction false} ChangedApart(xs: seq<Field>, g: Field, ys: seq<Field>, p: string, kids: seq<Field>)
    requires Unique(xs + [g] + ys) && p in Ids([g])
    ensures WithChildren(xs + [g] + ys, p, kids) == xs + WithChildren([g], p, kids) + ys
    ensures |WithChildren([g], p, kids)| == 1
  {
    var changed := WithChildren([g], p, kids);
    ChangedHead(g, ys, p, kids);
    Parted(xs, [g], ys);
    Parted(xs, changed, ys);
    if xs != [] {
      ApartBehind(xs[0], xs[1..], g, ys, p, kids);
      ChangedApart(xs[1..], g, ys, p, kids);
    }
  }

  lemma Parted(xs: seq<Field>, ms: seq<Field>, ys: seq<Field>)
    ensures xs + ms + ys == if xs == [] then ms + ys else [xs[0]] + (xs[1..] + ms + ys)
  {
    if xs == [] {
      assert xs + ms == ms;
    } else {
      assert xs == [xs[0]] + xs[1..];
      Grouped([xs[0]], xs[1..], ms);
      Grouped([xs[0]], xs[1..] + ms, ys);
    }
  }

  lemma FirstOfSum(xs: seq<Field>, ys: seq<Field>)
    requires xs != []
    ensures xs + ys == [xs[0]] + (xs[1..] + ys)
  {
  }

  lemma ApartBehind(x: Field, xs: seq<Field>, g: Field, ys: seq<Field>, p: string, kids: seq<Field>)
    requires Unique([x] + (xs + [g] + ys)) && p in Ids([g])
    ensures Unique(xs + [g] + ys)
    ensures WithChildren([x] + (xs + [g] + ys), p, kids) == [x] + WithChildren(xs + [g] + ys, p, kids)
  {
    InTheMiddle(xs, g, ys, p);
    NotInFirst(x, xs + [g] + ys, p);
    ChangedHead(x, xs + [g] + ys, p, kids);
  }

  lemma InTheMiddle(xs: seq<Field>, g: Field, ys: seq<Field>, p: string)
    requires p in Ids([g])
    ensures p in Ids(xs + [g] + ys)
  {
    IdsAppend(xs + [g], ys);
    IdsAppend(xs, [g]);
  }

  lemma NotInFirst(x: Field, rest: seq<Field>, p: string)
    requires Unique([x] + rest) && p in Ids(rest)
    ensures Unique(rest) && p !in Ids([x])
  {
    UniqueAppend([x], rest);
  }

  lemma ChangedHead(f: Field, rest: seq<Field>, p: string, kids: seq<Field>)
    ensures |WithChildren([f], p, kids)| == 1
    ensures WithChildren([f] + rest, p, kids) ==
      if p in Ids([f]) then WithChildren([f], p, kids) + rest else [f] + WithChildren(rest, p, kids)
  {
    assert ([f] + rest)[1..] == rest && [f][1..] == [];
  }

  lemma {:induction false} ChangedElsewhere(xs: seq<Field>, g: Field, ys: seq<Field>, p: string, kids: seq<Field>)
    requires p !in Ids([g])
    ensures var r := WithChildren(xs + ys, p, kids);
      |r| == |xs + ys| && WithChildren(xs + [g] + ys, p, kids) == r[..|xs|] + [g] + r[|xs|..]
  {
    SameLength(xs + ys, p, kids);
    Parted(xs, [g], ys);
    if xs == [] {
      ChangedHead(g, ys, p, kids);
      AtFront(WithChildren(ys, p, kids), g);
      assert xs + ys == ys;
    } else {
      FirstOfSum(xs, ys);
      ChangedElsewhere(xs[1..], g, ys, p, kids);
      SameLength(xs[1..] + ys, p, kids);
      ElsewhereBehind(xs[0], xs[1..] + ys, |xs| - 1, g, p, kids);
      Between(xs[1..], g, ys);
    }
  }

  lemma AtFront(rest: seq<Field>, g: Field)
    ensures rest[..0] + [g] + rest[0..] == [g] + rest
  {
  }

  lemma Between(xs: seq<Field>, g: Field, ys: seq<Field>)
    ensures Inserted(xs + ys, |xs|, g) == xs + [g] + ys
  {
  }

  lemma ElsewhereBehind(x: Field, rest: seq<Field>, k: nat, g: Field, p: string, kids: seq<Field>)
    requires k <= |rest| == |WithChildren(rest, p, kids)|
    requires WithChildren(Inserted(rest, k, g), p, kids) == Inserted(WithChildren(rest, p, kids), k, g)
    ensures |WithChildren([x] + rest, p, kids)| == |rest| + 1
    ensures WithChildren([x] + Inserted(rest, k, g), p, kids) == Inserted(WithChildren([x] + rest, p, kids), k + 1, g)
  {
    ChangedHead(x, rest, p, kids);
    ChangedHead(x, Inserted(rest, k, g), p, kids);
    if p !in Ids([x]) {
      PutBehind(x, WithChildren(rest, p, kids), k, g);
    } else {
      var x2 := WithChildren([x], p, kids)[0];
      assert WithChildren([x], p, kids) == [x2];
      PutBehind(x2, rest, k, g);
    }
  }

  lemma PutBehind(head: Field, rest: seq<Field>, k: nat, g: Field)
    requires k <= |rest|
    ensures Inserted([head] + rest, k + 1, g) == [head] + Inserted(rest, k, g)
  {
    assert ([head] + rest)[..k + 1] == [head] + rest[..k] && ([head] + rest)[k + 1..] == rest[k..];
  }

  lemma {:induction false} SameLength(fs: seq<Field>, p: string, kids: seq<Field>)
    ensures |WithChildren(fs, p, kids)| == |fs|
  {
    if fs != [] { SameLength(fs[1..], p, kids); }
  }

  lemma SameChangedField(f: Field, g: Field, p: string, k1: seq<Field>, k2: seq<Field>)
    requires SameField(f, g) && p in Ids([f]) && SameTrees(k1, k2)
    requires f.id != p && f.Branch? ==> SameTrees(WithChildren(f.children, p, k1), WithChildren(g.children, p, k2))
    ensures |WithChildren([f], p, k1)| == |WithChildren([g], p, k2)| == 1
    ensures SameField(WithChildren([f], p, k1)[0], WithChildren([g], p, k2)[0])
  {
    SameFieldIds(f, g);
  }

  /** Replacing the children of one field by the same ones. */
  lemma {:induction false} SameChanged(fs: seq<Field>, gs: seq<Field>, p: string, k1: seq<Field>, k2: seq<Field>)
    requires SameTrees(fs, gs) && Unique(fs) && p in Ids(fs) && SameTrees(k1, k2)
    ensures SameTrees(WithChildren(fs, p, k1), WithChildren(gs, p, k2))
    decreases fs
  {
    SameIds(fs, gs);
    var f := fs[0];
    var k := Partner(fs, gs);
    if p in Ids([f]) {
      if f.id != p && f.Branch? {
        UniqueFirst(fs);
        SameChanged(f.children, gs[k].children, p, k1, k2);
      }
      ChangedHere(fs, gs, k, p, k1, k2);
    } else {
      UniqueFirst(fs);
      SameChanged(fs[1..], Dropped(gs, k), p, k1, k2);
      ChangedThere(fs, gs, k, p, k1, k2);
    }
  }

  lemma UniqueFirst(fs: seq<Field>)
    requires Unique(fs) && fs != []
    ensures Unique([fs[0]]) && Unique(Kids(fs[0])) && Unique(fs[1..]) && Ids(fs) == Ids([fs[0]]) + Ids(fs[1..])
  {
    assert fs == [fs[0]] + fs[1..];
    IdsAppend([fs[0]], fs[1..]);
    UniqueAppend([fs[0]], fs[1..]);
  }

  lemma ChangedHere(fs: seq<Field>, gs: seq<Field>, k: nat, p: string, k1: seq<Field>, k2: seq<Field>)
    requires fs != [] && k < |gs| && SameField(fs[0], gs[k]) && SameTrees(fs[1..], Dropped(gs, k))
    requires Unique(gs) && p in Ids([fs[0]]) && SameTrees(k1, k2)
    requires fs[0].id != p && fs[0].Branch? ==>
      SameTrees(WithChildren(fs[0].children, p, k1), WithChildren(gs[k].children, p, k2))
    ensures SameTrees(WithChildren(fs, p, k1), WithChildren(gs, p, k2))
  {
    SameFieldIds(fs[0], gs[k]);
    SameChangedField(fs[0], gs[k], p, k1, k2);
    var f := ChangedFirst(fs, p, k1);
    var g := ChangedOne(gs, k, p, k2);
    PairChanged(f, fs[1..], gs, k, g);
  }

  lemma ChangedFirst(fs: seq<Field>, p: string, kids: seq<Field>) returns (f: Field)
    requires fs != [] && p in Ids([fs[0]])
    ensures WithChildren([fs[0]], p, kids) == [f] && WithChildren(fs, p, kids) == [f] + fs[1..]
  {
    assert fs == [fs[0]] + fs[1..];
    ChangedHead(fs[0], fs[1..], p, kids);
    SameLength([fs[0]], p, kids);
    f := WithChildren([fs[0]], p, kids)[0];
  }

  lemma ChangedOne(gs: seq<Field>, k: nat, p: string, kids: seq<Field>) returns (g: Field)
    requires k < |gs| && Unique(gs) && p in Ids([gs[k]])
    ensures WithChildren([gs[k]], p, kids) == [g] && WithChildren(gs, p, kids) == gs[..k] + [g] + gs[k + 1..]
  {
    assert gs == gs[..k] + [gs[k]] + gs[k + 1..];
    ChangedApart(gs[..k], gs[k], gs[k + 1..], p, kids);
    g := WithChildren([gs[k]], p, kids)[0];
  }

  lemma ChangedThere(fs: seq<Field>, gs: seq<Field>, k: nat, p: string, k1: seq<Field>, k2: seq<Field>)
    requires fs != [] && k < |gs| && SameField(fs[0], gs[k]) && p !in Ids([fs[0]])
    requires SameTrees(WithChildren(fs[1..], p, k1), WithChildren(Dropped(gs, k), p, k2))
    ensures SameTrees(WithChildren(fs, p, k1), WithChildren(gs, p, k2))
  {
    assert fs == [fs[0]] + fs[1..] && gs == gs[..k] + [gs[k]] + gs[k + 1..];
    SameFieldIds(fs[0], gs[k]);
    ChangedHead(fs[0], fs[1..], p, k1);
    ChangedElsewhere(gs[..k], gs[k], gs[k + 1..], p, k2);
    PairAt(fs[0], WithChildren(fs[1..], p, k1), WithChildren(Dropped(gs, k), p, k2), k, gs[k]);
  }

  lemma PairChanged(f: Field, rest: seq<Field>, gs: seq<Field>, k: nat, g: Field)
    requires k < |gs| && SameField(f, g) && SameTrees(rest, Dropped(gs, k))
    ensures SameTrees([f] + rest, gs[..k] + [g] + gs[k + 1..])
  {
    PairAt(f, rest, Dropped(gs, k), k, g);
    assert Inserted(Dropped(gs, k), k, g) == gs[..k] + [g] + gs[k + 1..];
  }

  lemma PairAt(f: Field, rest: seq<Field>, others: seq<Field>, k: nat, g: Field)
    requires k <= |others| && SameField(f, g) && SameTrees(rest, others)
    ensures SameTrees([f] + rest, others[..k] + [g] + others[k..])
  {
    var gs := others[..k] + [g] + others[k..];
    assert Dropped(gs, k) == others && ([f] + rest)[1..] == rest;
    Pair([f] + rest, gs, k);
  }

  // ---------------------------------------------------------- putting in, taking out

  /** Two lists stay the same when the same field is put into them, anywhere. */
  lemma {:induction false} SameInserted(fs: seq<Field>, gs: seq<Field>, i: nat, j: nat, f: Field)
    requires SameTrees(fs, gs) && i <= |fs| && j <= |gs|
    ensures SameTrees(Inserted(fs, i, f), Inserted(gs, j, f))
    decreases |fs|, 1
  {
    if i == 0 {
      InsertedFirst(fs, gs, j, f);
    } else {
      var k := Partner(fs, gs);
      InsertedBehindFirst(fs, gs, k, i, j, f);
    }
  }

  lemma {:induction false} InsertedBehindFirst(fs: seq<Field>, gs: seq<Field>, k: nat, i: nat, j: nat, f: Field)
    requires k < |gs| && 0 < i <= |fs| && j <= |gs| && SameField(fs[0], gs[k]) && SameTrees(fs[1..], Dropped(gs, k))
    ensures SameTrees(Inserted(fs, i, f), Inserted(gs, j, f))
    decreases |fs|, 0
  {
    var j2 := PlaceWithout(k, j, |gs|);
    SameInserted(fs[1..], Dropped(gs, k), i - 1, j2, f);
    InsertedPair(fs, gs, k, i, j, j2, f);
  }

  lemma SameFieldItself(f: Field)
    ensures SameField(f, f)
  {
    if f.Branch? { SameItself(f.children); }
  }

  lemma InsertedFirst(fs: seq<Field>, gs: seq<Field>, j: nat, f: Field)
    requires SameTrees(fs, gs) && j <= |gs|
    ensures SameTrees(Inserted(fs, 0, f), Inserted(gs, j, f))
  {
    SameFieldItself(f);
    PairAt(f, fs, gs, j, f);
    assert Inserted(fs, 0, f) == [f] + fs;
  }

  /** Where position j of a list is when the item at k is left out. */
  function PlaceWithout(k: nat, j: nat, n: nat): (j2: nat)
    requires k < n && j <= n
    ensures j2 <= n - 1
  {
    if k < j then j - 1 else j
  }

  lemma InsertedPair(fs: seq<Field>, gs: seq<Field>, k: nat, i: nat, j: nat, j2: nat, f: Field)
    requires k < |gs| && 0 < i <= |fs| && j <= |gs| && SameField(fs[0], gs[k]) && j2 == PlaceWithout(k, j, |gs|)
    requires SameTrees(Inserted(fs[1..], i - 1, f), Inserted(Dropped(gs, k), j2, f))
    ensures SameTrees(Inserted(fs, i, f), Inserted(gs, j, f))
  {
    DroppedAndInserted(gs, k, j, f);
    PutBehind(fs[0], fs[1..], i - 1, f);
    assert fs == [fs[0]] + fs[1..];
    PairWith(fs[0], Inserted(fs[1..], i - 1, f), Inserted(gs, j, f), if k < j then k else k + 1);
  }

  lemma PairWith(f: Field, rest: seq<Field>, gs: seq<Field>, k: nat)
    requires k < |gs| && SameField(f, gs[k]) && SameTrees(rest, Dropped(gs, k))
    ensures SameTrees([f] + rest, gs)
  {
    assert ([f] + rest)[1..] == rest;
    Pair([f] + rest, gs, k);
  }

  lemma DroppedAndInserted(gs: seq<Field>, k: nat, j: nat, f: Field)
    requires k < |gs| && j <= |gs|
    ensures var j2, k2 := if k < j then j - 1 else j, if k < j then k else k + 1;
      && Inserted(gs, j, f)[k2] == gs[k]
      && Dropped(Inserted(gs, j, f), k2) == Inserted(Dropped(gs, k), j2, f)
  {
    if k < j { DroppedBefore(gs, k, j, f); } else { DroppedBehind(gs, k, j, f); }
  }

  lemma DroppedBefore(gs: seq<Field>, k: nat, j: nat, f: Field)
    requires k < j <= |gs|
    ensures Inserted(gs, j, f)[k] == gs[k] && Dropped(Inserted(gs, j, f), k) == Inserted(Dropped(gs, k), j - 1, f)
  {
    var a, b, c := gs[..k], gs[k + 1..j], gs[j..];
    assert gs == a + [gs[k]] + b + c;
    InsertedBehind(a, gs[k], b, c, f);
  }

  lemma DroppedBehind(gs: seq<Field>, k: nat, j: nat, f: Field)
    requires j <= k < |gs|
    ensures Inserted(gs, j, f)[k + 1] == gs[k] && Dropped(Inserted(gs, j, f), k + 1) == Inserted(Dropped(gs, k), j, f)
  {
    var a, b, c := gs[..j], gs[j..k], gs[k + 1..];
    assert gs == a + b + [gs[k]] + c;
    InsertedBefore(a, b, gs[k], c, f);
  }

  lemma DropBetween(x: seq<Field>, g: Field, y: seq<Field>)
    ensures (x + [g] + y)[|x|] == g && Dropped(x + [g] + y, |x|) == x + y
  {
    assert (x + [g] + y)[..|x|] == x && (x + [g] + y)[|x| + 1..] == y;
  }

  lemma InsertBetween(x: seq<Field>, y: seq<Field>, f: Field)
    ensures Inserted(x + y, |x|, f) == x + [f] + y
  {
    assert (x + y)[..|x|] == x && (x + y)[|x|..] == y;
  }

  lemma InsertedBehind(a: seq<Field>, g: Field, b: seq<Field>, c: seq<Field>, f: Field)
    ensures var all, k, j := a + [g] + b + c, |a|, |a| + 1 + |b|;
      Inserted(all, j, f)[k] == g && Dropped(Inserted(all, j, f), k) == Inserted(Dropped(all, k), j - 1, f)
  {
    InsertBetween(a + [g] + b, c, f);
    Grouped(a + [g], b, [f] + c);
    DropBetween(a, g, b + ([f] + c));
    Grouped(a + [g], b, c);
    DropBetween(a, g, b + c);
    InsertBetween(a + b, c, f);
    Grouped(a, b, c);
    Grouped(a, b, [f] + c);
    Grouped(a + [g] + b, [f], c);
    Grouped(a + b, [f], c);
  }

  lemma Grouped(a: seq<Field>, b: seq<Field>, c: seq<Field>)
    ensures a + b + c == a + (b + c)
  {
  }

  lemma InsertedBefore(a: seq<Field>, b: seq<Field>, g: Field, c: seq<Field>, f: Field)
    ensures var all, k, j := a + b + [g] + c, |a| + |b|, |a|;
      Inserted(all, j, f)[k + 1] == g && Dropped(Inserted(all, j, f), k + 1) == Inserted(Dropped(all, k), j, f)
  {
    DropBetween(a + b, g, c);
    Grouped(a, b, c);
    InsertBetween(a, b + c, f);
    Grouped(a, b, [g] + c);
    Grouped(a + b, [g], c);
    InsertBetween(a, b + ([g] + c), f);
    Grouped(a + [f], b, [g] + c);
    Grouped(a + [f] + b, [g], c);
    DropBetween(a + [f] + b, g, c);
    Grouped(a + [f], b, c);
  }

  lemma {:induction false} RemovedApart(xs: seq<Field>, ys: seq<Field>, id: string)
    ensures RemoveById(xs + ys, id) == RemoveById(xs, id) + RemoveById(ys, id)
  {
    if xs == [] { assert xs + ys == ys; } else {
      assert (xs + ys)[1..] == xs[1..] + ys;
      RemovedApart(xs[1..], ys, id);
    }
  }

  lemma RemovedThis(gs: seq<Field>, k: nat, id: string)
    requires k < |gs| && gs[k].id == id
    ensures RemoveById(gs, id) == RemoveById(Dropped(gs, k), id)
  {
    RemovedApart(gs[..k], gs[k + 1..], id);
    RemovedApart(gs[..k] + [gs[k]], gs[k + 1..], id);
    RemovedApart(gs[..k], [gs[k]], id);
    RemovedOne(gs[k], id);
    assert gs == gs[..k] + [gs[k]] + gs[k + 1..];
    assert RemoveById(gs[..k], id) + [] == RemoveById(gs[..k], id);
  }

  lemma RemovedOther(gs: seq<Field>, k: nat, id: string)
    requires k < |gs| && gs[k].id != id
    ensures var xs, ys := RemoveById(gs[..k], id), RemoveById(gs[k + 1..], id);
      RemoveById(Dropped(gs, k), id) == xs + ys && RemoveById(gs, id) == xs + [gs[k]] + ys
  {
    RemovedApart(gs[..k], gs[k + 1..], id);
    RemovedApart(gs[..k] + [gs[k]], gs[k + 1..], id);
    RemovedApart(gs[..k], [gs[k]], id);
    RemovedOne(gs[k], id);
    assert gs == gs[..k] + [gs[k]] + gs[k + 1..];
  }

  lemma RemovedOne(g: Field, id: string)
    ensures RemoveById([g], id) == if g.id == id then [] else [g]
  {
    assert [g][1..] == [];
  }

  lemma {:induction false} SameRemoved(fs: seq<Field>, gs: seq<Field>, id: string)
    requires SameTrees(fs, gs)
    ensures SameTrees(RemoveById(fs, id), RemoveById(gs, id))
    decreases |fs|
  {
    if fs != [] {
      var k := Partner(fs, gs);
      SameRemoved(fs[1..], Dropped(gs, k), id);
      if fs[0].id == id { RemovedThis(gs, k, id); } else { RemovedPair(fs, gs, k, id); }
    }
  }

  lemma RemovedPair(fs: seq<Field>, gs: seq<Field>, k: nat, id: string)
    requires fs != [] && k < |gs| && SameField(fs[0], gs[k]) && fs[0].id != id
    requires SameTrees(RemoveById(fs[1..], id), RemoveById(Dropped(gs, k), id))
    ensures SameTrees(RemoveById(fs, id), RemoveById(gs, id))
  {
    RemovedOther(gs, k, id);
    PairBetween(fs[0], RemoveById(fs[1..], id), RemoveById(gs[..k], id), gs[k], RemoveById(gs[k + 1..], id));
  }

  lemma PairBetween(f: Field, rest: seq<Field>, xs: seq<Field>, g: Field, ys: seq<Field>)
    requires SameField(f, g) && SameTrees(rest, xs + ys)
    ensures SameTrees([f] + rest, xs + [g] + ys)
  {
    assert Dropped(xs + [g] + ys, |xs|) == xs + ys;
    PairWith(f, rest, xs + [g] + ys, |xs|);
  }
}
