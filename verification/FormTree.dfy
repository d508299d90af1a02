/** Form trees: fields inside fields. */
module FormTree {
  import opened Options

  /** A field of a form; a branch has a list of children, which may be empty. */
  datatype Field =
    | Leaf(id: string, fieldType: string)
    | Branch(id: string, fieldType: string, children: seq<Field>)

  function Kids(f: Field): (kids: seq<Field>) {
    if f.Leaf? then [] else f.children
  }

  function Ids(fs: seq<Field>): set<string> {
    if fs == [] then {} else
      match fs[0]
      case Leaf(id, _) => {id} + Ids(fs[1..])
      case Branch(id, _, children) => {id} + Ids(children) + Ids(fs[1..])
  }

  /** No id occurs twice in the trees. */
  predicate Unique(fs: seq<Field>) {
    if fs == [] then true else
      match fs[0]
      case Leaf(id, _) => id !in Ids(fs[1..]) && Unique(fs[1..])
      case Branch(id, _, children) =>
        && id !in Ids(children) && id !in Ids(fs[1..]) && Ids(children) !! Ids(fs[1..])
        && Unique(children) && Unique(fs[1..])
  }

  /** The first field in preorder with the id. */
  function Find(fs: seq<Field>, id: string): (r: Option<Field>)
    ensures r.Some? <==> id in Ids(fs)
    ensures r.Some? ==> r.value.id == id
  {
    if fs == [] then None
    else if fs[0].id == id then Some(fs[0])
    else
      var inner := if fs[0].Leaf? then None else Find(fs[0].children, id);
      if inner.Some? then inner else Find(fs[1..], id)
  }

  predicate HasChild(fs: seq<Field>, id: string) {
    exists f :: f in fs && f.id == id
  }

  /** The first field in preorder that has a child with the id. */
  function FindParent(fs: seq<Field>, child: string): (r: Option<Field>)
    ensures r.Some? ==> r.value.Branch? && HasChild(r.value.children, child)
  {
    if fs == [] then None
    else if HasChild(Kids(fs[0]), child) then Some(fs[0])
    else
      var inner := if fs[0].Leaf? then None else FindParent(fs[0].children, child);
      if inner.Some? then inner else FindParent(fs[1..], child)
  }

  /** The children of the first field in preorder with the id are replaced. */
  function WithChildren(fs: seq<Field>, id: string, children: seq<Field>): seq<Field> {
    if fs == [] then []
    else if fs[0].id == id then [Branch(id, fs[0].fieldType, children)] + fs[1..]
    else if fs[0].Branch? && id in Ids(fs[0].children)
    then [fs[0].(children := WithChildren(fs[0].children, id, children))] + fs[1..]
    else [fs[0]] + WithChildren(fs[1..], id, children)
  }

  /** The ids of a list of siblings, in order. */
  function ChildIds(fs: seq<Field>): seq<string> {
    if fs == [] then [] else [fs[0].id] + ChildIds(fs[1..])
  }

  function Inserted(fs: seq<Field>, k: nat, f: Field): seq<Field>
    requires k <= |fs|
  {
    fs[..k] + [f] + fs[k..]
  }

  function Dropped(fs: seq<Field>, k: nat): seq<Field>
    requires k < |fs|
  {
    fs[..k] + fs[k + 1..]
  }

  function RemoveById(fs: seq<Field>, id: string): seq<Field> {
    if fs == [] then []
    else if fs[0].id == id then RemoveById(fs[1..], id)
    else [fs[0]] + RemoveById(fs[1..], id)
  }

  lemma {:induction false} ChildIsInIds(fs: seq<Field>, f: Field)
    requires f in fs
    ensures f.id in Ids(fs) && Ids(Kids(f)) <= Ids(fs)
  {
    if f != fs[0] { ChildIsInIds(fs[1..], f); }
  }

  lemma {:induction false} RemoveAbsent(fs: seq<Field>, id: string)
    requires id !in Ids(fs)
    ensures RemoveById(fs, id) == fs
  {
    if fs != [] { RemoveAbsent(fs[1..], id); }
  }
}
