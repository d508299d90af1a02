/** Deep merging of field trees (mergeDeepFieldTrees). */
module FieldTrees {
  import opened FormTree

  function RootIds(fs: seq<Field>): set<string> {
    if fs == [] then {} else {fs[0].id} + RootIds(fs[1..])
  }

  /** Sibling ids are unique at every level. */
  predicate UniqueSiblings(fs: seq<Field>) {
    if fs == [] then true
    else
      && fs[0].id !in RootIds(fs[1..])
      && (fs[0].Branch? ==> UniqueSiblings(fs[0].children))
      && UniqueSiblings(fs[1..])
  }

  /** A field with other children; a field without children stays without. */
  function Rebuilt(f: Field, children: seq<Field>): (r: Field)
    ensures r.id == f.id && r.fieldType == f.fieldType && Kids(r) == children
  {
    if f.Leaf? && children == [] then f else Branch(f.id, f.fieldType, children)
  }

  // -------------------------------------------------------------- step by step

  /** The position of the last field with the id, or -1. */
  function LastWithId(fs: seq<Field>, id: string): (k: int)
    ensures -1 <= k < |fs|
    ensures k >= 0 ==> fs[k].id == id
    ensures forall i | k < i < |fs| :: fs[i].id != id
  {
    if fs == [] then -1
    else if fs[|fs| - 1].id == id then |fs| - 1
    else LastWithId(fs[..|fs| - 1], id)
  }

  function MergeOne(ds: seq<Field>, s: Field): seq<Field>
    decreases s, 1
  {
    var k := LastWithId(ds, s.id);
    if k >= 0 then ds[k := Merge(ds[k], s)] else ds + [s]
  }

  function MergeChildren(ds: seq<Field>, ss: seq<Field>): seq<Field>
    decreases ss, 0
  {
    if ss == [] then ds else MergeChildren(MergeOne(ds, ss[0]), ss[1..])
  }

  /** One source tree merged into another, child after child. */
  function Merge(d: Field, s: Field): Field
    decreases s, 0
  {
    if Kids(d) != [] then (if s.Leaf? then d else Rebuilt(d, MergeChildren(Kids(d), s.children)))
    else if Kids(s) != [] then Rebuilt(d, Kids(s))
    else d
  }

  /** The table of children by id: the last one of each id. */
  predicate TableOf(table: map<string, nat>, fs: seq<Field>) {
    && (forall id | id in table :: table[id] == LastWithId(fs, id))
    && (forall i | 0 <= i < |fs| :: fs[i].id in table)
  }

  method ChildrenById(fs: seq<Field>) returns (table: map<string, nat>)
    ensures TableOf(table, fs)
  {
    table := map[];
    for i := 0 to |fs|
      invariant TableOf(table, fs[..i])
    {
      assert fs[..i + 1][..i] == fs[..i];
      table := table[fs[i].id := i];
    }
    assert fs[..|fs|] == fs;
  }

  lemma AbsentFromTable(table: map<string, nat>, fs: seq<Field>, id: string)
    requires TableOf(table, fs)
    ensures id in table <==> LastWithId(fs, id) >= 0
  {
  }

  lemma {:induction false} LastAfterReplacing(fs: seq<Field>, k: nat, f: Field, id: string)
    requires k < |fs| && f.id == fs[k].id
    ensures LastWithId(fs[k := f], id) == LastWithId(fs, id)
  {
    var n := |fs| - 1;
    if fs[n].id != id && k < n {
      assert fs[k := f][..n] == fs[..n][k := f];
      LastAfterReplacing(fs[..n], k, f, id);
    } else if fs[n].id != id {
      assert fs[k := f][..n] == fs[..n];
    }
  }

  lemma TableAfterReplacing(table: map<string, nat>, fs: seq<Field>, k: nat, f: Field)
    requires TableOf(table, fs) && k < |fs| && f.id == fs[k].id
    ensures TableOf(table, fs[k := f])
  {
    forall id | id in table ensures table[id] == LastWithId(fs[k := f], id) { LastAfterReplacing(fs, k, f, id); }
  }

  lemma TableAfterPush(table: map<string, nat>, fs: seq<Field>, f: Field)
    requires TableOf(table, fs)
    ensures TableOf(table[f.id := |fs|], fs + [f])
  {
    assert (fs + [f])[..|fs|] == fs;
  }

  lemma MergeKeepsId(d: Field, s: Field)
    ensures Merge(d, s).id == d.id
  {
  }

  /** The merge as the code does it, looking children up in a table that is kept up to
      date while children are pushed. */
  method Traverse(dst: Field, src: Field) returns (r: Field)
    ensures r == Merge(dst, src)
    decreases src
  {
    var dstChildren := Kids(dst);
    if |dstChildren| > 0 {
      if src.Leaf? { return dst; }
      var dstChildrenById: map<string, nat> := ChildrenById(dstChildren);
      var srcChildren := src.children;
      for index := 0 to |srcChildren|
        invariant TableOf(dstChildrenById, dstChildren)
        invariant MergeChildren(Kids(dst), srcChildren) == MergeChildren(dstChildren, srcChildren[index..])
      {
        var srcChild := srcChildren[index];
        assert srcChildren[index..][0] == srcChild && srcChildren[index..][1..] == srcChildren[index + 1..];
        AbsentFromTable(dstChildrenById, dstChildren, srcChild.id);
        if srcChild.id in dstChildrenById {
          var k := dstChildrenById[srcChild.id];
          var merged := Traverse(dstChildren[k], srcChild);
          MergeKeepsId(dstChildren[k], srcChild);
          TableAfterReplacing(dstChildrenById, dstChildren, k, merged);
          dstChildren := dstChildren[k := merged];
        } else {
          TableAfterPush(dstChildrenById, dstChildren, srcChild);
          dstChildrenById := dstChildrenById[srcChild.id := |dstChildren|];
          dstChildren := dstChildren + [srcChild];
        }
      }
      r := Rebuilt(dst, dstChildren);
    } else if |Kids(src)| > 0 {
      r := Rebuilt(dst, Kids(src));
    } else {
      r := dst;
    }
  }

  function MergeAll(tree: Field, rest: seq<Field>): Field
    decreases |rest|
  {
    if rest == [] then tree else MergeAll(Merge(tree, rest[0]), rest[1..])
  }

  method MergeDeepFieldTrees(tree: Field, restTrees: seq<Field>) returns (r: Field)
    ensures r == MergeAll(tree, restTrees)
  {
    r := tree;
    for i := 0 to |restTrees|
      invariant MergeAll(tree, restTrees) == MergeAll(r, restTrees[i..])
    {
      assert restTrees[i..][1..] == restTrees[i + 1..];
      r := Traverse(r, restTrees[i]);
    }
  }

  // ------------------------------------------------------------- the simple merge

  /** The first field with the id. */
  function Get(fs: seq<Field>, id: string): (f: Field)
    requires id in RootIds(fs)
    ensures f in fs && f.id == id
  {
    if fs[0].id == id then fs[0] else Get(fs[1..], id)
  }

  /** Fields whose ids are not among the given ones. */
  function Without(ids: set<string>, fs: seq<Field>): (r: seq<Field>)
    ensures RootIds(r) == RootIds(fs) - ids
  {
    if fs == [] then []
    else if fs[0].id in ids then Without(ids, fs[1..])
    else [fs[0]] + Without(ids, fs[1..])
  }

  function CombineWith(d: Field, ss: seq<Field>): (r: Field)
    ensures r.id == d.id
    decreases ss, 1
  {
    if d.id in RootIds(ss) then Combine(d, Get(ss, d.id)) else d
  }

  /** Every left child combined with the right child of the same id. */
  function Matched(ds: seq<Field>, ss: seq<Field>): (r: seq<Field>)
    ensures RootIds(r) == RootIds(ds) && |r| == |ds|
    decreases ss, 2, |ds|
  {
    if ds == [] then [] else [CombineWith(ds[0], ss)] + Matched(ds[1..], ss)
  }

  /** Left children in their order, then the right children with new ids. */
  function Combine(d: Field, s: Field): (r: Field)
    ensures r.id == d.id
    decreases s
  {
    if s.Leaf? then d
    else Rebuilt(d, Matched(Kids(d), s.children) + Without(RootIds(Kids(d)), s.children))
  }

  function Combined(ds: seq<Field>, ss: seq<Field>): seq<Field> {
    Matched(ds, ss) + Without(RootIds(ds), ss)
  }

  // --------------------------------------------- the steps refine the simple merge

  lemma {:induction false} GetIsUnique(fs: seq<Field>, k: nat)
    requires UniqueSiblings(fs) && k < |fs|
    ensures fs[k].id in RootIds(fs) && Get(fs, fs[k].id) == fs[k]
    ensures UniqueSiblings([fs[k]]) && UniqueSiblings(Kids(fs[k]))
  {
    if k > 0 {
      GetIsUnique(fs[1..], k - 1);
    }
  }

  lemma {:induction false} RootIdsMean(fs: seq<Field>, id: string)
    ensures id in RootIds(fs) <==> LastWithId(fs, id) >= 0
  {
    if fs != [] {
      RootIdsMean(fs[..|fs| - 1], id);
      RootIdsAppend(fs[..|fs| - 1], fs[|fs| - 1..]);
      assert fs == fs[..|fs| - 1] + fs[|fs| - 1..];
    }
  }

  lemma {:induction false} RootIdsAppend(xs: seq<Field>, ys: seq<Field>)
    ensures RootIds(xs + ys) == RootIds(xs) + RootIds(ys)
  {
    if xs == [] { assert xs + ys == ys; } else {
      assert (xs + ys)[1..] == xs[1..] + ys;
      RootIdsAppend(xs[1..], ys);
    }
  }

  lemma {:induction false} MatchedAppend(xs: seq<Field>, ys: seq<Field>, ss: seq<Field>)
    ensures Matched(xs + ys, ss) == Matched(xs, ss) + Matched(ys, ss)
  {
    if xs == [] { assert xs + ys == ys; } else {
      assert (xs + ys)[1..] == xs[1..] + ys;
      MatchedAppend(xs[1..], ys, ss);
    }
  }

  lemma {:induction false} WithoutAppend(ids: set<string>, xs: seq<Field>, ys: seq<Field>)
    ensures Without(ids, xs + ys) == Without(ids, xs) + Without(ids, ys)
  {
    if xs == [] { assert xs + ys == ys; } else {
      assert (xs + ys)[1..] == xs[1..] + ys;
      WithoutAppend(ids, xs[1..], ys);
    }
  }

  /** Without matches the left children stay as they are. */
  lemma {:induction false} MatchedNone(ds: seq<Field>, ss: seq<Field>)
    requires RootIds(ds) !! RootIds(ss)
    ensures Matched(ds, ss) == ds
  {
    if ds != [] { MatchedNone(ds[1..], ss); }
  }

  /** One more right child changes only the left child of the same id. */
  lemma {:induction false} MatchedMore(ds: seq<Field>, s: Field, ss: seq<Field>)
    requires s.id !in RootIds(ds)
    ensures Matched(ds, [s] + ss) == Matched(ds, ss)
  {
    assert ([s] + ss)[1..] == ss;
    if ds != [] { MatchedMore(ds[1..], s, ss); }
  }

  lemma {:induction false} WithoutMore(ids: set<string>, id: string, ss: seq<Field>)
    requires id !in RootIds(ss)
    ensures Without(ids + {id}, ss) == Without(ids, ss)
  {
    if ss != [] { WithoutMore(ids, id, ss[1..]); }
  }

  /** A left child that is already merged with s is left alone by the other right ones. */
  lemma {:induction false} MatchedReplaced(ds: seq<Field>, k: nat, s: Field, ss: seq<Field>)
    requires UniqueSiblings(ds) && k < |ds| && ds[k].id == s.id && s.id !in RootIds(ss)
    ensures Matched(ds[k := Combine(ds[k], s)], ss) == Matched(ds, [s] + ss)
  {
    assert ([s] + ss)[1..] == ss;
    var f := Combine(ds[k], s);
    if k == 0 {
      assert ds[0 := f] == [f] + ds[1..];
      MatchedMore(ds[1..], s, ss);
    } else {
      assert ds[k := f] == [ds[0]] + ds[1..][k - 1 := f];
      OtherRoot(ds, k);
      MatchedReplaced(ds[1..], k - 1, s, ss);
    }
  }

  lemma OtherRoot(ds: seq<Field>, k: nat)
    requires UniqueSiblings(ds) && 0 < k < |ds|
    ensures ds[0].id != ds[k].id
  {
    RootIdsMean(ds[1..], ds[k].id);
    assert ds[1..][k - 1] == ds[k];
  }

  lemma {:induction false} RootIdsReplaced(ds: seq<Field>, k: nat, f: Field)
    requires k < |ds| && f.id == ds[k].id
    ensures RootIds(ds[k := f]) == RootIds(ds)
  {
    if k > 0 {
      assert ds[k := f][1..] == ds[1..][k - 1 := f];
      RootIdsReplaced(ds[1..], k - 1, f);
    }
  }

  lemma {:induction false} UniqueReplaced(ds: seq<Field>, k: nat, f: Field)
    requires UniqueSiblings(ds) && k < |ds| && f.id == ds[k].id && UniqueSiblings(Kids(f))
    ensures UniqueSiblings(ds[k := f])
  {
    if k > 0 {
      assert ds[k := f][1..] == ds[1..][k - 1 := f];
      RootIdsReplaced(ds[1..], k - 1, f);
      UniqueReplaced(ds[1..], k - 1, f);
    }
  }

  lemma {:induction false} UniqueAppend(xs: seq<Field>, ys: seq<Field>)
    requires UniqueSiblings(xs) && UniqueSiblings(ys) && RootIds(xs) !! RootIds(ys)
    ensures UniqueSiblings(xs + ys)
  {
    if xs == [] { assert xs + ys == ys; } else {
      assert (xs + ys)[1..] == xs[1..] + ys;
      RootIdsAppend(xs[1..], ys);
      UniqueAppend(xs[1..], ys);
    }
  }

  lemma {:induction false} UniqueWithout(ids: set<string>, fs: seq<Field>)
    requires UniqueSiblings(fs)
    ensures UniqueSiblings(Without(ids, fs))
  {
    if fs != [] { UniqueWithout(ids, fs[1..]); }
  }

  /** The merge keeps sibling ids unique. */
  lemma {:induction false} CombineKeepsUnique(d: Field, s: Field)
    requires UniqueSiblings(Kids(d)) && UniqueSiblings(Kids(s))
    ensures UniqueSiblings(Kids(Combine(d, s)))
    decreases s, 0
  {
    if s.Branch? {
      MatchedKeepsUnique(Kids(d), s.children);
      UniqueWithout(RootIds(Kids(d)), s.children);
      UniqueAppend(Matched(Kids(d), s.children), Without(RootIds(Kids(d)), s.children));
    }
  }

  lemma {:induction false} GetKeepsUnique(fs: seq<Field>, id: string)
    requires UniqueSiblings(fs) && id in RootIds(fs)
    ensures UniqueSiblings(Kids(Get(fs, id)))
  {
    if fs[0].id != id { GetKeepsUnique(fs[1..], id); }
  }

  lemma {:induction false} MatchedKeepsUnique(ds: seq<Field>, ss: seq<Field>)
    requires UniqueSiblings(ds) && UniqueSiblings(ss)
    ensures UniqueSiblings(Matched(ds, ss))
    decreases ss, |ds|
  {
    if ds != [] {
      MatchedKeepsUnique(ds[1..], ss);
      if ds[0].id in RootIds(ss) {
        GetKeepsUnique(ss, ds[0].id);
        CombineKeepsUnique(ds[0], Get(ss, ds[0].id));
      }
    }
  }

  /** With unique sibling ids, merging step by step is the simple merge. */
  lemma {:induction false} MergeIsCombine(d: Field, s: Field)
    requires UniqueSiblings(Kids(d)) && UniqueSiblings(Kids(s))
    ensures Merge(d, s) == Combine(d, s)
    decreases s, 0
  {
    if s.Branch? {
      MergeChildrenIsCombined(Kids(d), s.children);
      if Kids(d) == [] { WithoutNothing(s.children); }
      if s.children == [] { MatchedNone(Kids(d), s.children); RebuiltSame(d); }
    }
  }

  lemma RebuiltTwice(d: Field, xs: seq<Field>, ys: seq<Field>)
    requires |xs| <= |ys|
    ensures Rebuilt(Rebuilt(d, xs), ys) == Rebuilt(d, ys)
  {
  }

  lemma CombineEmpty(d: Field, s: Field)
    requires Kids(s) == []
    ensures Combine(d, s) == d
  {
    MatchedNone(Kids(d), []);
    RebuiltSame(d);
    assert Kids(d) + [] == Kids(d);
  }

  lemma RebuiltSame(d: Field)
    ensures Rebuilt(d, Kids(d)) == d
  {
  }

  lemma {:induction false} WithoutNothing(fs: seq<Field>)
    ensures Without({}, fs) == fs
  {
    if fs != [] { WithoutNothing(fs[1..]); }
  }

  lemma CombinedReplaced(ds: seq<Field>, k: nat, s: Field, rest: seq<Field>)
    requires UniqueSiblings(ds) && k < |ds| && ds[k].id == s.id && s.id !in RootIds(rest)
    ensures Combined(ds[k := Combine(ds[k], s)], rest) == Combined(ds, [s] + rest)
  {
    MatchedReplaced(ds, k, s, rest);
    RootIdsReplaced(ds, k, Combine(ds[k], s));
    GetIsUnique(ds, k);
    assert ([s] + rest)[1..] == rest;
  }

  lemma CombinedPushed(ds: seq<Field>, s: Field, rest: seq<Field>)
    requires s.id !in RootIds(ds) && s.id !in RootIds(rest)
    ensures Combined(ds + [s], rest) == Combined(ds, [s] + rest)
  {
    var ids := RootIds(ds);
    WithoutFirst(ids, s, rest);
    MatchedAppend(ds, [s], rest);
    OneRoot(s, rest);
    MatchedMore(ds, s, rest);
    RootIdsAppend(ds, [s]);
    WithoutMore(ids, s.id, rest);
    Regroup(Matched(ds, rest), [s], Without(ids, rest));
  }

  lemma OneRoot(s: Field, rest: seq<Field>)
    requires s.id !in RootIds(rest)
    ensures RootIds([s]) == {s.id} && Matched([s], rest) == [s]
  {
  }

  lemma WithoutFirst(ids: set<string>, s: Field, rest: seq<Field>)
    requires s.id !in ids
    ensures Without(ids, [s] + rest) == [s] + Without(ids, rest)
  {
    assert ([s] + rest)[1..] == rest;
  }

  lemma Regroup(xs: seq<Field>, ys: seq<Field>, zs: seq<Field>)
    ensures (xs + ys) + zs == xs + (ys + zs)
  {
  }

  lemma {:induction false} MergeChildrenIsCombined(ds: seq<Field>, ss: seq<Field>)
    requires UniqueSiblings(ds) && UniqueSiblings(ss)
    ensures MergeChildren(ds, ss) == Combined(ds, ss)
    decreases ss, 1
  {
    if ss == [] {
      MatchedNone(ds, ss);
    } else {
      var s, rest := ss[0], ss[1..];
      assert ss == [s] + rest;
      var k := LastWithId(ds, s.id);
      RootIdsMean(ds, s.id);
      if k >= 0 {
        GetIsUnique(ds, k);
        MergeIsCombine(ds[k], s);
        CombineKeepsUnique(ds[k], s);
        UniqueReplaced(ds, k, Combine(ds[k], s));
        MergeChildrenIsCombined(ds[k := Combine(ds[k], s)], rest);
        CombinedReplaced(ds, k, s, rest);
      } else {
        UniqueAppend(ds, [s]);
        MergeChildrenIsCombined(ds + [s], rest);
        CombinedPushed(ds, s, rest);
      }
    }
  }

  // ------------------------------------------------------------------------- laws

  lemma {:induction false} WithoutMatched(ids: set<string>, bs: seq<Field>, cs: seq<Field>)
    ensures Without(ids, Matched(bs, cs)) == Matched(Without(ids, bs), cs)
  {
    if bs != [] { WithoutMatched(ids, bs[1..], cs); }
  }

  lemma {:induction false} WithoutTwice(ids: set<string>, more: set<string>, cs: seq<Field>)
    ensures Without(ids, Without(more, cs)) == Without(ids + more, cs)
  {
    if cs != [] { WithoutTwice(ids, more, cs[1..]); }
  }

  lemma {:induction false} GetMatched(bs: seq<Field>, cs: seq<Field>, id: string)
    requires id in RootIds(bs)
    ensures Get(Matched(bs, cs), id) == CombineWith(Get(bs, id), cs)
  {
    if bs[0].id != id { GetMatched(bs[1..], cs, id); }
  }

  lemma {:induction false} GetWithout(ids: set<string>, fs: seq<Field>, id: string)
    requires id in RootIds(fs) && id !in ids
    ensures Get(Without(ids, fs), id) == Get(fs, id)
  {
    if fs[0].id != id { GetWithout(ids, fs[1..], id); }
  }

  lemma {:induction false} GetAppend(xs: seq<Field>, ys: seq<Field>, id: string)
    requires id in RootIds(xs) || id in RootIds(ys)
    ensures id in RootIds(xs + ys)
    ensures Get(xs + ys, id) == if id in RootIds(xs) then Get(xs, id) else Get(ys, id)
  {
    RootIdsAppend(xs, ys);
    if xs == [] { assert xs + ys == ys; } else {
      assert (xs + ys)[1..] == xs[1..] + ys;
      if xs[0].id != id { GetAppend(xs[1..], ys, id); }
    }
  }

  /** What a combined list holds at an id. */
  lemma GetCombined(bs: seq<Field>, cs: seq<Field>, id: string)
    ensures RootIds(Combined(bs, cs)) == RootIds(bs) + RootIds(cs)
    ensures id in RootIds(bs) ==> Get(Combined(bs, cs), id) == CombineWith(Get(bs, id), cs)
    ensures id in RootIds(cs) && id !in RootIds(bs) ==> Get(Combined(bs, cs), id) == Get(cs, id)
  {
    RootIdsAppend(Matched(bs, cs), Without(RootIds(bs), cs));
    if id in RootIds(bs) {
      GetMatched(bs, cs, id);
      GetAppend(Matched(bs, cs), Without(RootIds(bs), cs), id);
    } else if id in RootIds(cs) {
      GetWithout(RootIds(bs), cs, id);
      GetAppend(Matched(bs, cs), Without(RootIds(bs), cs), id);
    }
  }

  datatype Found = Nothing | OfType(fieldType: string)

  /** What a tree has at the end of a path of ids. */
  function At(fs: seq<Field>, path: seq<string>): Found
    requires path != []
    decreases |path|
  {
    if path[0] !in RootIds(fs) then Nothing
    else if |path| == 1 then OfType(Get(fs, path[0]).fieldType)
    else At(Kids(Get(fs, path[0])), path[1..])
  }

  lemma CombinedChildren(d: Field, s: Field)
    ensures Kids(Combine(d, s)) == Combined(Kids(d), Kids(s))
  {
    if s.Leaf? {
      MatchedNone(Kids(d), []);
      assert Kids(d) + [] == Kids(d);
    }
  }

  lemma {:induction false} CombinedAt(bs: seq<Field>, cs: seq<Field>, path: seq<string>)
    requires path != []
    ensures At(Combined(bs, cs), path) == if At(bs, path).Nothing? then At(cs, path) else At(bs, path)
    decreases |path|
  {
    var id := path[0];
    GetCombined(bs, cs, id);
    if id in RootIds(bs) && id in RootIds(cs) {
      CombinedChildren(Get(bs, id), Get(cs, id));
      if |path| > 1 { CombinedAt(Kids(Get(bs, id)), Kids(Get(cs, id)), path[1..]); }
    }
  }

  /** The merge has at every depth what either tree has there, and where both have a
      field it is the left one's. */
  lemma MergedAt(d: Field, s: Field, path: seq<string>)
    requires UniqueSiblings(Kids(d)) && UniqueSiblings(Kids(s)) && path != []
    ensures At(Kids(Merge(d, s)), path)
         == if At(Kids(d), path).Nothing? then At(Kids(s), path) else At(Kids(d), path)
  {
    MergeIsCombine(d, s);
    CombinedChildren(d, s);
    CombinedAt(Kids(d), Kids(s), path);
  }

  /** The merge is associative. */
  lemma {:induction false} CombineAssociates(a: Field, b: Field, c: Field)
    ensures Combine(Combine(a, b), c) == Combine(a, Combine(b, c))
    decreases b, c, 0
  {
    if b.Branch? && c.Branch? {
      MatchedTwice(Kids(a), b.children, c.children);
      CombinedAssociates(Kids(a), b.children, c.children);
      BranchesAssociate(a, b, c);
    } else if b.Leaf? && c.Branch? {
      LeafAssociates(a, b, c);
    }
  }

  lemma BranchesAssociate(a: Field, b: Field, c: Field)
    requires b.Branch? && c.Branch?
    requires Combined(Combined(Kids(a), b.children), c.children) == Combined(Kids(a), Combined(b.children, c.children))
    ensures Combine(Combine(a, b), c) == Combine(a, Combine(b, c))
  {
    var xs := Combined(Kids(a), b.children);
    assert Combine(a, b) == Rebuilt(a, xs);
    assert Combine(Rebuilt(a, xs), c) == Rebuilt(Rebuilt(a, xs), Combined(xs, c.children));
    assert |xs| <= |Combined(xs, c.children)|;
    RebuiltTwice(a, xs, Combined(xs, c.children));
    var bc := Rebuilt(b, Combined(b.children, c.children));
    assert Combine(b, c) == bc && bc.Branch?;
    assert Combine(a, bc) == Rebuilt(a, Combined(Kids(a), bc.children));
  }

  lemma LeafAssociates(a: Field, b: Field, c: Field)
    requires b.Leaf? && c.Branch?
    ensures Combine(Combine(a, b), c) == Combine(a, Combine(b, c))
  {
    WithoutNothing(c.children);
    assert Combine(a, b) == a;
    assert Matched(Kids(b), c.children) == [];
    assert Combine(b, c) == Rebuilt(b, c.children);
    if c.children == [] {
      CombineEmpty(a, c);
      assert Combine(b, c) == b;
    } else {
      var bc := Branch(b.id, b.fieldType, c.children);
      assert Combine(b, c) == bc;
      assert Combine(a, bc) == Combine(a, c);
    }
  }

  lemma CombinedAssociates(as_: seq<Field>, bs: seq<Field>, cs: seq<Field>)
    requires Matched(Matched(as_, bs), cs) == Matched(as_, Combined(bs, cs))
    ensures Combined(Combined(as_, bs), cs) == Combined(as_, Combined(bs, cs))
  {
    var ia, ib := RootIds(as_), RootIds(bs);
    MatchedAppend(Matched(as_, bs), Without(ia, bs), cs);
    RootIdsAppend(Matched(as_, bs), Without(ia, bs));
    WithoutAppend(ia, Matched(bs, cs), Without(ib, cs));
    WithoutMatched(ia, bs, cs);
    WithoutTwice(ia, ib, cs);
    assert RootIds(Combined(as_, bs)) == ia + ib;
    Regroup(Matched(Matched(as_, bs), cs), Matched(Without(ia, bs), cs), Without(ia + ib, cs));
  }

  lemma {:induction false} MatchedTwice(as_: seq<Field>, bs: seq<Field>, cs: seq<Field>)
    ensures Matched(Matched(as_, bs), cs) == Matched(as_, Combined(bs, cs))
    decreases bs, cs, 1, |as_|
  {
    if as_ != [] {
      var a := as_[0];
      MatchedTwice(as_[1..], bs, cs);
      GetCombined(bs, cs, a.id);
      if a.id in RootIds(bs) && a.id in RootIds(cs) {
        CombineAssociates(a, Get(bs, a.id), Get(cs, a.id));
      }
    }
  }

  lemma {:induction false} MatchedSelf(ss: seq<Field>, j: nat)
    requires UniqueSiblings(ss) && j <= |ss|
    ensures Matched(ss[j..], ss) == ss[j..]
    decreases ss, |ss| - j
  {
    if j < |ss| {
      GetIsUnique(ss, j);
      CombineIdempotent(ss[j]);
      assert ss[j..][1..] == ss[j + 1..];
      MatchedSelf(ss, j + 1);
    }
  }

  lemma {:induction false} WithoutAll(ids: set<string>, fs: seq<Field>)
    requires RootIds(fs) <= ids
    ensures Without(ids, fs) == []
  {
    if fs != [] { WithoutAll(ids, fs[1..]); }
  }

  lemma {:induction false} CombineIdempotent(d: Field)
    requires UniqueSiblings(Kids(d))
    ensures Combine(d, d) == d
    decreases d
  {
    if d.Branch? {
      assert d.children[0..] == d.children;
      MatchedSelf(d.children, 0);
      WithoutAll(RootIds(d.children), d.children);
      assert Kids(Combine(d, d)) == d.children;
    }
  }

  lemma {:induction false} ChildIdsAppend(xs: seq<Field>, ys: seq<Field>)
    ensures ChildIds(xs + ys) == ChildIds(xs) + ChildIds(ys)
  {
    if xs == [] { assert xs + ys == ys; } else {
      assert (xs + ys)[1..] == xs[1..] + ys;
      ChildIdsAppend(xs[1..], ys);
    }
  }

  lemma {:induction false} MatchedKeepsOrder(ds: seq<Field>, ss: seq<Field>)
    ensures ChildIds(Matched(ds, ss)) == ChildIds(ds)
  {
    if ds != [] { MatchedKeepsOrder(ds[1..], ss); }
  }

  /** What a merge gives: sibling ids stay unique, the left tree's children come first
      and in their order, merging again changes nothing, nor does merging with itself. */
  lemma MergeLaws(d: Field, s: Field)
    requires UniqueSiblings(Kids(d)) && UniqueSiblings(Kids(s))
    ensures var m := Merge(d, s);
      && m == Combine(d, s) && m.id == d.id && m.fieldType == d.fieldType && UniqueSiblings(Kids(m))
      && ChildIds(Kids(m)) == ChildIds(Kids(d)) + ChildIds(Without(RootIds(Kids(d)), Kids(s)))
      && Merge(m, s) == m
    ensures Merge(d, d) == d
  {
    MergeIsCombine(d, s);
    CombineKeepsUnique(d, s);
    MergeIsCombine(Combine(d, s), s);
    CombineAssociates(d, s, s);
    CombineIdempotent(s);
    MergeIsCombine(d, d);
    CombineIdempotent(d);
    if s.Branch? {
      MatchedKeepsOrder(Kids(d), s.children);
      ChildIdsAppend(Matched(Kids(d), s.children), Without(RootIds(Kids(d)), s.children));
    }
  }

  lemma MergeAssociates(a: Field, b: Field, c: Field)
    requires UniqueSiblings(Kids(a)) && UniqueSiblings(Kids(b)) && UniqueSiblings(Kids(c))
    ensures Merge(Merge(a, b), c) == Merge(a, Merge(b, c))
  {
    MergeLaws(a, b);
    MergeLaws(b, c);
    MergeLaws(Merge(a, b), c);
    MergeLaws(a, Merge(b, c));
    CombineAssociates(a, b, c);
  }

  // ------------------------------------------------------------------ bracketings

  /** A way to merge a list of trees, two at a time. */
  datatype Bracketing = One(tree: Field) | Both(left: Bracketing, right: Bracketing)

  function Value(b: Bracketing): Field {
    match b
    case One(tree) => tree
    case Both(left, right) => Merge(Value(left), Value(right))
  }

  function Trees(b: Bracketing): (r: seq<Field>)
    ensures r != []
  {
    match b
    case One(tree) => [tree]
    case Both(left, right) => Trees(left) + Trees(right)
  }

  predicate AllUnique(fs: seq<Field>) {
    forall f | f in fs :: UniqueSiblings(Kids(f))
  }

  lemma {:induction false} MergeAllKeepsUnique(tree: Field, rest: seq<Field>)
    requires UniqueSiblings(Kids(tree)) && AllUnique(rest)
    ensures UniqueSiblings(Kids(MergeAll(tree, rest)))
    decreases |rest|
  {
    if rest != [] {
      MergeLaws(tree, rest[0]);
      MergeAllKeepsUnique(Merge(tree, rest[0]), rest[1..]);
    }
  }

  lemma {:induction false} MergeAllAppend(tree: Field, xs: seq<Field>, ys: seq<Field>)
    ensures MergeAll(tree, xs + ys) == MergeAll(MergeAll(tree, xs), ys)
    decreases |xs|
  {
    if xs == [] { assert xs + ys == ys; } else {
      assert (xs + ys)[1..] == xs[1..] + ys;
      MergeAllAppend(Merge(tree, xs[0]), xs[1..], ys);
    }
  }

  /** Merging trees into one first, and that into another, is merging them one by one. */
  lemma {:induction false} MergeIntoFirst(a: Field, b: Field, rest: seq<Field>)
    requires UniqueSiblings(Kids(a)) && UniqueSiblings(Kids(b)) && AllUnique(rest)
    ensures Merge(a, MergeAll(b, rest)) == MergeAll(Merge(a, b), rest)
    decreases |rest|
  {
    if rest != [] {
      MergeLaws(b, rest[0]);
      MergeAssociates(a, b, rest[0]);
      MergeIntoFirst(a, Merge(b, rest[0]), rest[1..]);
    }
  }

  lemma JoinedLists(xs: seq<Field>, ys: seq<Field>)
    requires xs != [] && ys != [] && AllUnique(xs) && AllUnique(ys)
    ensures var l, r := MergeAll(xs[0], xs[1..]), MergeAll(ys[0], ys[1..]);
      Merge(l, r) == MergeAll((xs + ys)[0], (xs + ys)[1..]) && UniqueSiblings(Kids(Merge(l, r)))
  {
    var x, y, more, others := xs[0], ys[0], xs[1..], ys[1..];
    MergeAllKeepsUnique(x, more);
    MergeAllKeepsUnique(y, others);
    JoinedMerges(x, more, y, others);
    RestOfBoth(xs, ys);
  }

  lemma RestOfBoth(xs: seq<Field>, ys: seq<Field>)
    requires xs != [] && ys != []
    ensures (xs + ys)[0] == xs[0] && (xs + ys)[1..] == xs[1..] + ([ys[0]] + ys[1..])
  {
  }

  lemma JoinedMerges(x: Field, more: seq<Field>, y: Field, others: seq<Field>)
    requires UniqueSiblings(Kids(MergeAll(x, more))) && UniqueSiblings(Kids(MergeAll(y, others)))
    requires UniqueSiblings(Kids(y)) && AllUnique(others)
    ensures var l, r := MergeAll(x, more), MergeAll(y, others);
      Merge(l, r) == MergeAll(x, more + ([y] + others)) && UniqueSiblings(Kids(Merge(l, r)))
  {
    var l := MergeAll(x, more);
    MergeIntoFirst(l, y, others);
    MergeLaws(l, MergeAll(y, others));
    MergeAllAppend(x, more, [y] + others);
    assert ([y] + others)[1..] == others;
  }

  /** A merge of any number of trees is the same however the trees are bracketed. */
  lemma {:induction false} AnyBracketing(b: Bracketing)
    requires AllUnique(Trees(b))
    ensures Value(b) == MergeAll(Trees(b)[0], Trees(b)[1..]) && UniqueSiblings(Kids(Value(b)))
  {
    match b
    case One(tree) =>
    case Both(left, right) =>
      var xs, ys := Trees(left), Trees(right);
      assert AllUnique(xs) && AllUnique(ys) by {
        forall f | f in xs || f in ys ensures UniqueSiblings(Kids(f)) { assert f in xs + ys; }
      }
      AnyBracketing(left);
      AnyBracketing(right);
      JoinedLists(xs, ys);
  }
}
