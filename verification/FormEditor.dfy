/** Editing the fields of a form: adding, removing and moving them. */
module FormEditor {
  import opened Decimal
  import opened FieldIds
  import opened Options
  import opened FormTree
  import opened TreeLaws

  // ------------------------------------------------------------------ fresh ids

  function Proposed(base: string, delimiter: string, index: nat): string {
    base + delimiter + Numeral(index)
  }

  lemma ProposedDiffer(base: string, delimiter: string, i: nat, j: nat)
    requires Proposed(base, delimiter, i) == Proposed(base, delimiter, j)
    ensures i == j
  {
    var front := base + delimiter;
    assert (front + Numeral(i))[|front|..] == Numeral(i) && (front + Numeral(j))[|front|..] == Numeral(j);
    NumeralInjective(i, j);
  }

  /** The ids in use that could still be proposed. */
  ghost function TakenFrom(ids: set<string>, base: string, delimiter: string, index: nat): set<string> {
    set id | id in ids && exists k: nat :: index <= k && id == Proposed(base, delimiter, k)
  }

  lemma OneLessTaken(ids: set<string>, base: string, delimiter: string, index: nat)
    requires Proposed(base, delimiter, index) in ids
    ensures |TakenFrom(ids, base, delimiter, index + 1)| < |TakenFrom(ids, base, delimiter, index)|
  {
    var now, later := TakenFrom(ids, base, delimiter, index), TakenFrom(ids, base, delimiter, index + 1);
    var id := Proposed(base, delimiter, index);
    if id in later {
      var k: nat :| index + 1 <= k && id == Proposed(base, delimiter, k);
      ProposedDiffer(base, delimiter, index, k);
    }
    assert later <= now - {id};
    Smaller(later, now - {id});
  }

  lemma {:induction false} Smaller(a: set<string>, b: set<string>)
    requires a <= b
    ensures |a| <= |b|
    decreases b
  {
    if a != {} {
      var x :| x in a;
      Smaller(a - {x}, b - {x});
    }
  }

  /** k is the first number from `index` on whose id is not in use. */
  predicate IsFirstFree(ids: set<string>, base: string, delimiter: string, index: nat, k: nat) {
    && index <= k && Proposed(base, delimiter, k) !in ids
    && forall j: nat | index <= j < k :: Proposed(base, delimiter, j) in ids
  }

  /** The first free id of its family: the search ends, because every id in use stops it
      at most once. */
  function GenerateUniqueId(ids: set<string>, base: string, index: nat, delimiter: string): (id: string)
    ensures id !in ids && |id| > |base|
    ensures exists k: nat :: IsFirstFree(ids, base, delimiter, index, k) && id == Proposed(base, delimiter, k)
    decreases |TakenFrom(ids, base, delimiter, index)|
  {
    var proposed := Proposed(base, delimiter, index);
    if proposed !in ids then
      assert IsFirstFree(ids, base, delimiter, index, index);
      proposed
    else
      OneLessTaken(ids, base, delimiter, index);
      assert forall k: nat | IsFirstFree(ids, base, delimiter, index + 1, k) :: IsFirstFree(ids, base, delimiter, index, k);
      GenerateUniqueId(ids, base, index + 1, delimiter)
  }

  // ----------------------------------------------------------------- new fields

  datatype Kind = Plain | Wrapper | GrowingRow | GrowingSet | Unsupported

  const PLAIN_TYPES: seq<string> := [
    "textField", "textArea", "radioButton", "checkboxButton", "dropdown", "namedAttachment", "koodistoField", "p", "h3", "link"]

  const WRAPPER_TYPES: seq<string> := ["theme", "fieldset"]

  function KindOf(fieldType: string): Kind {
    if fieldType in PLAIN_TYPES then Plain
    else if fieldType in WRAPPER_TYPES then Wrapper
    else if fieldType == "growingFieldsetChild" then GrowingRow
    else if fieldType == "growingFieldset" then GrowingSet
    else Unsupported
  }

  function NestedId(ids: set<string>, id: string, suffix: string, delimiter: string): (r: string)
    ensures r !in ids && |r| > |id|
  {
    GenerateUniqueId(ids, id + suffix, 0, delimiter)
  }

  /** A new row of a growing fieldset, with one text field. */
  function NewRow(ids: set<string>, id: string): Field {
    Branch(id, "growingFieldsetChild", [Leaf(NestedId(ids, id, ".textField", "_"), "textField")])
  }

  /** A new field with its nested fields; None stands for an exception. */
  function CreateNewField(ids: set<string>, fieldType: string, id: string): Option<Field> {
    match KindOf(fieldType)
    case Plain => Some(Leaf(id, fieldType))
    case Wrapper => Some(Branch(id, fieldType, []))
    case GrowingRow => Some(NewRow(ids, id))
    case GrowingSet => Some(Branch(id, fieldType, [NewRow(ids, NestedId(ids, id, "-growingFieldsetChild", "-"))]))
    case Unsupported => None
  }

  /** A field with new ids only, all different, none shorter than the outermost. */
  ghost predicate Fresh(ids: set<string>, f: Field) {
    Unique([f]) && Ids([f]) !! ids && forall other | other in Ids([f]) :: |other| >= |f.id|
  }

  /** All ids of a new field are new and different, the nested ones included. */
  lemma NewIdsAreFresh(ids: set<string>, fieldType: string, id: string)
    requires id !in ids && CreateNewField(ids, fieldType, id).Some?
    ensures var f := CreateNewField(ids, fieldType, id).value;
      f.id == id && Fresh(ids, f)
  {
    match KindOf(fieldType)
    case Plain => LeafIsFresh(ids, fieldType, id);
    case Wrapper =>
    case GrowingRow => RowIsFresh(ids, id);
    case GrowingSet =>
      var rowId := NestedId(ids, id, "-growingFieldsetChild", "-");
      RowIsFresh(ids, rowId);
      WrappedIsFresh(ids, fieldType, id, NewRow(ids, rowId));
    case Unsupported =>
  }

  /** The id is the first free one of its family. */
  ghost predicate FirstOfFamily(ids: set<string>, id: string, base: string, delimiter: string) {
    exists k: nat :: IsFirstFree(ids, base, delimiter, 0, k) && id == Proposed(base, delimiter, k)
  }

  /** A row of a growing fieldset with one text field, named after the row. */
  ghost predicate RowWithOneText(ids: set<string>, row: Field) {
    && row.fieldType == "growingFieldsetChild" && |Kids(row)| == 1
    && Kids(row)[0].Leaf? && Kids(row)[0].fieldType == "textField"
    && FirstOfFamily(ids, Kids(row)[0].id, row.id + ".textField", "_")
  }

  /** A new field is what was asked for: a growing fieldset comes with one row, and a row
      with one text field; others come empty, themes and fieldsets open for children. */
  lemma NewFieldHolds(ids: set<string>, fieldType: string, id: string)
    requires CreateNewField(ids, fieldType, id).Some?
    ensures var f := CreateNewField(ids, fieldType, id).value;
      && f.id == id && f.fieldType == fieldType
      && (f.Branch? <==> fieldType in ["theme", "fieldset", "growingFieldset", "growingFieldsetChild"])
      && (fieldType == "growingFieldsetChild" ==> RowWithOneText(ids, f))
      && (fieldType == "growingFieldset" ==>
            && |Kids(f)| == 1 && RowWithOneText(ids, Kids(f)[0])
            && FirstOfFamily(ids, Kids(f)[0].id, id + "-growingFieldsetChild", "-"))
      && (fieldType in ["theme", "fieldset"] ==> Kids(f) == [])
  {
    match KindOf(fieldType)
    case Plain => assert fieldType !in ["theme", "fieldset", "growingFieldset", "growingFieldsetChild"];
    case Wrapper =>
    case GrowingRow =>
    case GrowingSet =>
    case Unsupported =>
  }

  lemma LeafIsFresh(ids: set<string>, fieldType: string, id: string)
    requires id !in ids
    ensures Fresh(ids, Leaf(id, fieldType))
  {
  }

  lemma RowIsFresh(ids: set<string>, id: string)
    requires id !in ids
    ensures Fresh(ids, NewRow(ids, id))
  {
    var leafId := NestedId(ids, id, ".textField", "_");
    LeafIsFresh(ids, "textField", leafId);
    WrappedIsFresh(ids, "growingFieldsetChild", id, Leaf(leafId, "textField"));
  }

  lemma WrappedIsFresh(ids: set<string>, fieldType: string, id: string, inner: Field)
    requires id !in ids && Fresh(ids, inner) && |inner.id| > |id|
    ensures Fresh(ids, Branch(id, fieldType, [inner]))
  {
    assert Ids([Branch(id, fieldType, [inner])]) == {id} + Ids([inner]);
  }

  // ------------------------------------------------------------------- siblings

  /** The list that holds the field: its parent's children, or the form's content. */
  function Siblings(form: seq<Field>, id: string): seq<Field> {
    var parent := FindParent(form, id);
    if parent.Some? then parent.value.children else form
  }

  function WithSiblings(form: seq<Field>, id: string, siblings: seq<Field>): seq<Field> {
    var parent := FindParent(form, id);
    if parent.Some? then WithChildren(form, parent.value.id, siblings) else siblings
  }

  function IndexOf(fs: seq<Field>, id: string): (k: int)
    ensures -1 <= k < |fs|
    ensures k >= 0 ==> fs[k].id == id
    ensures k < 0 <==> !HasChild(fs, id)
  {
    if fs == [] then -1
    else if fs[0].id == id then 0
    else
      var k := IndexOf(fs[1..], id);
      assert fs == [fs[0]] + fs[1..];
      assert HasChild(fs, id) <==> HasChild(fs[1..], id);
      if k < 0 then -1 else k + 1
  }

  datatype Added = Added(form: seq<Field>, field: Field) | Thrown

  function NewId(form: seq<Field>, afterId: string, fieldType: string): (id: string)
    ensures id !in Ids(form)
  {
    var parent := FindParent(form, afterId);
    if parent.Some? && parent.value.fieldType == "growingFieldsetChild"
    then GenerateUniqueId(Ids(form), parent.value.id + "." + fieldType, 0, "_")
    else GenerateUniqueId(Ids(form), fieldType, 0, "-")
  }

  function AddChildFieldAfter(form: seq<Field>, afterId: string, fieldType: string): Added {
    AddField(form, afterId, CreateNewField(Ids(form), fieldType, NewId(form, afterId, fieldType)))
  }

  /** The field comes right after the given one; nothing happens without a field. */
  function AddField(form: seq<Field>, afterId: string, field: Option<Field>): Added {
    var siblings := Siblings(form, afterId);
    var k := if Find(form, afterId).Some? then IndexOf(siblings, afterId) + 1 else 0;
    if field.None? then Thrown
    else Added(WithSiblings(form, afterId, Inserted(siblings, k, field.value)), field.value)
  }

  function RemoveField(form: seq<Field>, id: string): seq<Field> {
    WithSiblings(form, id, RemoveById(Siblings(form, id), id))
  }

  /** The list with the field at position i moved to position j. */
  function MovedTo(fs: seq<Field>, i: nat, j: nat): seq<Field>
    requires i < |fs| && j < |fs|
  {
    Inserted(Dropped(fs, i), j, fs[i])
  }

  function MoveField(form: seq<Field>, id: string, delta: int): seq<Field>
    requires id in Ids(form)
  {
    InSiblings(form, id);
    var fs := Siblings(form, id);
    var i := IndexOf(fs, id);
    if 0 <= i + delta < |fs| then WithSiblings(form, id, MovedTo(fs, i, i + delta)) else form
  }

  lemma {:induction false} InSiblings(form: seq<Field>, id: string)
    requires id in Ids(form)
    ensures HasChild(Siblings(form, id), id)
  {
    if FindParent(form, id).None? && form[0].id != id {
      if form[0].Branch? && id in Ids(form[0].children) {
        InSiblings(form[0].children, id);
      } else {
        InSiblings(form[1..], id);
      }
    } else if FindParent(form, id).None? {
      assert form[0] in form;
    }
  }

  // ------------------------------------------------------------ replacing siblings

  /** Replacing the siblings of a field keeps ids unique, if the new ones fit. */
  lemma ReplacedIds(form: seq<Field>, id: string, kids: seq<Field>)
    requires Unique(form) && Fits(form, Siblings(form, id), kids)
    ensures Unique(WithSiblings(form, id, kids))
    ensures Ids(WithSiblings(form, id, kids)) == Ids(form) - Ids(Siblings(form, id)) + Ids(kids)
  {
    var parent := FindParent(form, id);
    if parent.Some? {
      ParentIsFound(form, id);
      ChangedIds(form, parent.value.id, kids);
    }
  }

  /** The new siblings are found again where they were put. */
  lemma ReplacedAgain(form: seq<Field>, id: string, kids: seq<Field>, other: string, kids2: seq<Field>)
    requires Unique(form) && Fits(form, Siblings(form, id), kids) && HasChild(kids, other)
    ensures Siblings(WithSiblings(form, id, kids), other) == kids
    ensures WithSiblings(WithSiblings(form, id, kids), other, kids2) == WithSiblings(form, id, kids2)
  {
    var parent := FindParent(form, id);
    if parent.Some? {
      ReplacedBelow(form, parent.value, id, kids, other, kids2);
    } else if FindParent(kids, other).Some? {
      TopIsNotBelow(kids, other);
      ParentHoldsId(kids, other);
    }
  }

  lemma ReplacedBelow(form: seq<Field>, p: Field, id: string, kids: seq<Field>, other: string, kids2: seq<Field>)
    requires Unique(form) && FindParent(form, id) == Some(p) && Fits(form, p.children, kids) && HasChild(kids, other)
    ensures var form2 := WithChildren(form, p.id, kids);
      && FindParent(form2, other) == Some(Branch(p.id, p.fieldType, kids))
      && WithChildren(form2, p.id, kids2) == WithChildren(form, p.id, kids2)
  {
    ParentIsFound(form, id);
    ChangedIds(form, p.id, kids);
    FindChanged(form, p.id, kids);
    OneParent(WithChildren(form, p.id, kids), Branch(p.id, p.fieldType, kids), other);
    ChangedTwice(form, p.id, kids, kids2);
  }

  lemma SiblingsUnique(form: seq<Field>, id: string)
    requires Unique(form)
    ensures Unique(Siblings(form, id)) && Ids(Siblings(form, id)) <= Ids(form)
    ensures WithSiblings(form, id, Siblings(form, id)) == form
  {
    var parent := FindParent(form, id);
    if parent.Some? {
      ParentIsFound(form, id);
      FoundIsUnique(form, parent.value.id);
      Unchanged(form, parent.value.id);
    }
  }

  // -------------------------------------------------------------------- siblings

  lemma {:induction false} RemovedIds(fs: seq<Field>, id: string)
    requires Unique(fs)
    ensures Unique(RemoveById(fs, id)) && Ids(RemoveById(fs, id)) <= Ids(fs) && !HasChild(RemoveById(fs, id), id)
  {
    if fs != [] { RemovedIds(fs[1..], id); }
  }

  lemma {:induction false} RemovedAt(fs: seq<Field>, k: nat)
    requires Unique(fs) && k < |fs|
    ensures RemoveById(fs, fs[k].id) == Dropped(fs, k)
  {
    if k == 0 {
      RemoveAbsent(fs[1..], fs[0].id);
      assert Dropped(fs, 0) == fs[1..];
    } else {
      ChildIsInIds(fs[1..], fs[1..][k - 1]);
      RemovedAt(fs[1..], k - 1);
      assert Dropped(fs, k) == [fs[0]] + Dropped(fs[1..], k - 1);
    }
  }

  lemma IdsTakenOut(fs: seq<Field>, k: nat)
    requires Unique(fs) && k < |fs|
    ensures Ids(Dropped(fs, k)) == Ids(fs) - Ids([fs[k]]) && Ids([fs[k]]) <= Ids(fs)
  {
    TakenOut(fs, k);
    InsertedIds(Dropped(fs, k), k, fs[k]);
  }

  lemma {:induction false} RemoveInserted(fs: seq<Field>, k: nat, f: Field)
    requires k <= |fs| && f.id !in Ids(fs)
    ensures RemoveById(Inserted(fs, k, f), f.id) == fs
  {
    var r := Inserted(fs, k, f);
    if k == 0 {
      assert r[1..] == fs;
      RemoveAbsent(fs, f.id);
    } else {
      assert r[1..] == Inserted(fs[1..], k - 1, f);
      RemoveInserted(fs[1..], k - 1, f);
    }
  }

  lemma {:induction false} IndexOfUnique(fs: seq<Field>, k: nat)
    requires Unique(fs) && k < |fs|
    ensures IndexOf(fs, fs[k].id) == k
  {
    if k > 0 {
      ChildIsInIds(fs[1..], fs[1..][k - 1]);
      IndexOfUnique(fs[1..], k - 1);
    }
  }

  lemma MovedIds(fs: seq<Field>, i: nat, j: nat)
    requires Unique(fs) && i < |fs| && j < |fs|
    ensures var r := MovedTo(fs, i, j);
      Unique(r) && Ids(r) == Ids(fs) && multiset(r) == multiset(fs) && r[j] == fs[i]
  {
    var others := Dropped(fs, i);
    TakenOut(fs, i);
    InsertedIds(others, i, fs[i]);
    InsertedIds(others, j, fs[i]);
    MovedMultiset(fs, i, j);
  }

  lemma TakenOut(fs: seq<Field>, i: nat)
    requires i < |fs|
    ensures Inserted(Dropped(fs, i), i, fs[i]) == fs
  {
    var others := Dropped(fs, i);
    assert others[..i] == fs[..i] && others[i..] == fs[i + 1..];
  }

  lemma MovedMultiset(fs: seq<Field>, i: nat, j: nat)
    requires i < |fs| && j < |fs|
    ensures multiset(MovedTo(fs, i, j)) == multiset(fs)
  {
    var others, x := Dropped(fs, i), fs[i];
    assert fs == fs[..i] + [x] + fs[i + 1..];
    assert multiset(fs) == multiset(others) + multiset{x};
    assert others == others[..j] + others[j..];
  }

  lemma MovedBack(fs: seq<Field>, i: nat, j: nat)
    requires i < |fs| && j < |fs|
    ensures MovedTo(MovedTo(fs, i, j), j, i) == fs && Dropped(MovedTo(fs, i, j), j) == Dropped(fs, i)
  {
    var r, others := MovedTo(fs, i, j), Dropped(fs, i);
    assert r[..j] == others[..j] && r[j + 1..] == others[j..];
    assert Dropped(r, j) == others;
    assert others[..i] == fs[..i] && others[i..] == fs[i + 1..];
  }

  // ------------------------------------------------------------------ the theorems

  /** Adding a field keeps ids unique: its own and its nested ids are new. It stands right
      after the given field, and removing it gives the form back. */
  lemma AddKeepsUnique(form: seq<Field>, afterId: string, fieldType: string)
    requires Unique(form) && AddChildFieldAfter(form, afterId, fieldType).Added?
    ensures AddedAt(form, afterId, IndexOf(Siblings(form, afterId), afterId) + 1, AddChildFieldAfter(form, afterId, fieldType))
  {
    AddNamed(form, afterId, fieldType, NewId(form, afterId, fieldType));
  }

  lemma AddNamed(form: seq<Field>, afterId: string, fieldType: string, id: string)
    requires Unique(form) && id !in Ids(form) && CreateNewField(Ids(form), fieldType, id).Some?
    ensures AddedAt(form, afterId, IndexOf(Siblings(form, afterId), afterId) + 1, AddField(form, afterId, CreateNewField(Ids(form), fieldType, id)))
  {
    NewIdsDoNotClash(Ids(form), fieldType, id);
    AddUnique(form, afterId, CreateNewField(Ids(form), fieldType, id).value);
  }

  /** What is added is of the type asked for, and its id is the first free one of its
      family: that of its row, in a row of a growing fieldset, or else that of its type. */
  lemma AddedIsNamed(form: seq<Field>, afterId: string, fieldType: string)
    requires AddChildFieldAfter(form, afterId, fieldType).Added?
    ensures var f, parent := AddChildFieldAfter(form, afterId, fieldType).field, FindParent(form, afterId);
      && f.fieldType == fieldType
      && if parent.Some? && parent.value.fieldType == "growingFieldsetChild"
         then FirstOfFamily(Ids(form), f.id, parent.value.id + "." + fieldType, "_")
         else FirstOfFamily(Ids(form), f.id, fieldType, "-")
  {
    NewFieldHolds(Ids(form), fieldType, NewId(form, afterId, fieldType));
  }

  lemma NewIdsDoNotClash(ids: set<string>, fieldType: string, id: string)
    requires id !in ids && CreateNewField(ids, fieldType, id).Some?
    ensures var f := CreateNewField(ids, fieldType, id).value; Unique([f]) && Ids([f]) !! ids
  {
    NewIdsAreFresh(ids, fieldType, id);
  }

  lemma AddUnique(form: seq<Field>, afterId: string, f: Field)
    requires Unique(form) && Unique([f]) && Ids([f]) !! Ids(form)
    ensures AddedAt(form, afterId, IndexOf(Siblings(form, afterId), afterId) + 1, AddField(form, afterId, Some(f)))
  {
    AddedBehind(form, afterId, f);
    AddedField(form, afterId, IndexOf(Siblings(form, afterId), afterId) + 1, f);
  }

  /** The field was added at position k among the siblings, and its ids are new. */
  ghost predicate AddedAt(form: seq<Field>, afterId: string, k: nat, r: Added) {
    && r.Added? && Unique(r.form) && Ids(r.form) == Ids(form) + Ids([r.field]) && Ids([r.field]) !! Ids(form)
    && k <= |Siblings(form, afterId)|
    && Siblings(r.form, r.field.id) == Inserted(Siblings(form, afterId), k, r.field)
    && RemoveField(r.form, r.field.id) == form
  }

  /** The form with the field put among the siblings of another. */
  function PutAt(form: seq<Field>, id: string, k: nat, f: Field): Added
    requires k <= |Siblings(form, id)|
  {
    Added(WithSiblings(form, id, Inserted(Siblings(form, id), k, f)), f)
  }

  lemma AddedBehind(form: seq<Field>, afterId: string, f: Field)
    requires Unique(form)
    ensures AddField(form, afterId, Some(f)) == PutAt(form, afterId, IndexOf(Siblings(form, afterId), afterId) + 1, f)
  {
    if Find(form, afterId).None? && HasChild(Siblings(form, afterId), afterId) {
      HasChildInIds(Siblings(form, afterId), afterId);
      SiblingsUnique(form, afterId);
    }
  }

  lemma AddedField(form: seq<Field>, id: string, k: nat, f: Field)
    requires Unique(form) && k <= |Siblings(form, id)| && Unique([f]) && Ids([f]) !! Ids(form)
    ensures AddedAt(form, id, k, PutAt(form, id, k, f))
  {
    var siblings := Siblings(form, id);
    var more := Inserted(siblings, k, f);
    InsertedFits(form, id, k, f);
    ReplacedIds(form, id, more);
    ReplacedAgain(form, id, more, f.id, siblings);
    RemovedAgain(form, id, k, f);
  }

  lemma RemovedAgain(form: seq<Field>, id: string, k: nat, f: Field)
    requires Unique(form) && k <= |Siblings(form, id)| && Unique([f]) && Ids([f]) !! Ids(form)
    ensures RemoveField(PutAt(form, id, k, f).form, f.id) == form
  {
    InsertedFits(form, id, k, f);
    ReplacedAgain(form, id, Inserted(Siblings(form, id), k, f), f.id, Siblings(form, id));
    RemoveInserted(Siblings(form, id), k, f);
  }

  lemma InsertedFits(form: seq<Field>, id: string, k: nat, f: Field)
    requires Unique(form) && k <= |Siblings(form, id)| && Unique([f]) && Ids([f]) !! Ids(form)
    ensures var siblings := Siblings(form, id);
      var more := Inserted(siblings, k, f);
      && Fits(form, siblings, more) && HasChild(more, f.id) && f.id !in Ids(siblings)
      && Ids(siblings) <= Ids(form) && Ids(more) == Ids(siblings) + Ids([f])
      && WithSiblings(form, id, siblings) == form
  {
    var more := Inserted(Siblings(form, id), k, f);
    SiblingsUnique(form, id);
    InsertedIds(Siblings(form, id), k, f);
    assert more[k] == f;
    assert f.id in Ids([f]);
  }

  /** Removing a field of the form takes out its ids, the nested ones included, and no
      others. */
  lemma RemovesItsIds(form: seq<Field>, id: string)
    requires Unique(form) && id in Ids(form)
    ensures var fs := Siblings(form, id);
      && var k := IndexOf(fs, id);
      && k >= 0 && fs[k].id == id && Ids(RemoveField(form, id)) == Ids(form) - Ids([fs[k]])
  {
    InSiblings(form, id);
    SiblingsUnique(form, id);
    var fs := Siblings(form, id);
    var k := IndexOf(fs, id);
    RemovedAt(fs, k);
    RemovedIds(fs, id);
    IdsTakenOut(fs, k);
    ReplacedIds(form, id, RemoveById(fs, id));
  }

  /** Removing a field keeps ids unique, adds none, and the field is gone. */
  lemma RemoveKeepsUnique(form: seq<Field>, id: string)
    requires Unique(form)
    ensures Unique(RemoveField(form, id)) && Ids(RemoveField(form, id)) <= Ids(form)
    ensures id in Ids(form) ==> id !in Ids(RemoveField(form, id))
  {
    var siblings := Siblings(form, id);
    var fewer := RemoveById(siblings, id);
    SiblingsUnique(form, id);
    RemovedIds(siblings, id);
    ReplacedIds(form, id, fewer);
    if id in Ids(form) {
      InSiblings(form, id);
      HasChildInIds(siblings, id);
      RemovedTop(siblings, id);
    }
  }

  lemma {:induction false} RemovedTop(fs: seq<Field>, id: string)
    requires Unique(fs) && HasChild(fs, id)
    ensures id !in Ids(RemoveById(fs, id))
  {
    var f :| f in fs && f.id == id;
    if fs[0].id == id {
      RemoveAbsent(fs[1..], id);
    } else {
      assert f in fs[1..];
      TopIsNotBelow(fs, id);
      RemovedTop(fs[1..], id);
    }
  }

  /** Moving a field permutes its siblings, changes no ids, and moving it back by as much
      gives the form back, if it moved at all. */
  lemma MoveThenBack(form: seq<Field>, id: string, delta: int)
    requires Unique(form) && id in Ids(form)
    ensures MovedOk(form, id, delta, MoveField(form, id, delta))
  {
    var fs := Siblings(form, id);
    InSiblings(form, id);
    SiblingsUnique(form, id);
    var i := IndexOf(fs, id);
    if 0 <= i + delta < |fs| { MoveInRange(form, id, i, i + delta); }
  }

  ghost predicate MovedOk(form: seq<Field>, id: string, delta: int, moved: seq<Field>) {
    && Unique(moved) && Ids(moved) == Ids(form)
    && multiset(Siblings(moved, id)) == multiset(Siblings(form, id))
    && var i := IndexOf(Siblings(form, id), id);
    && i >= 0
    && if 0 <= i + delta < |Siblings(form, id)|
       then
         && IndexOf(Siblings(moved, id), id) == i + delta && id in Ids(moved)
         && Dropped(Siblings(moved, id), i + delta) == Dropped(Siblings(form, id), i)
         && MoveField(moved, id, -delta) == form
       else moved == form
  }

  lemma MoveInRange(form: seq<Field>, id: string, i: nat, j: nat)
    requires Unique(form) && id in Ids(form) && i == IndexOf(Siblings(form, id), id)
    requires i < |Siblings(form, id)| && j < |Siblings(form, id)|
    ensures MovedOk(form, id, j - i, WithSiblings(form, id, MovedTo(Siblings(form, id), i, j)))
  {
    var fs, moved := Siblings(form, id), WithSiblings(form, id, MovedTo(Siblings(form, id), i, j));
    MovedAndBack(form, id, i, j);
    MovedOthers(fs, i, j);
    assert MoveField(moved, id, i - j) == form by { MovedBackAgain(form, id, i, j); }
  }

  lemma MovedOthers(fs: seq<Field>, i: nat, j: nat)
    requires i < |fs| && j < |fs|
    ensures |MovedTo(fs, i, j)| == |fs|
    ensures multiset(MovedTo(fs, i, j)) == multiset(fs) && Dropped(MovedTo(fs, i, j), j) == Dropped(fs, i)
  {
    MovedMultiset(fs, i, j);
    MovedBack(fs, i, j);
  }

  lemma MovedAndBack(form: seq<Field>, id: string, i: nat, j: nat)
    requires Unique(form) && id in Ids(form) && i == IndexOf(Siblings(form, id), id)
    requires i < |Siblings(form, id)| && j < |Siblings(form, id)|
    ensures var fs, moved := Siblings(form, id), WithSiblings(form, id, MovedTo(Siblings(form, id), i, j));
      && Unique(moved) && Ids(moved) == Ids(form) && Siblings(moved, id) == MovedTo(fs, i, j)
      && IndexOf(Siblings(moved, id), id) == j
  {
    var fs, r := Siblings(form, id), MovedTo(Siblings(form, id), i, j);
    SiblingsUnique(form, id);
    MovedIds(fs, i, j);
    MovedIndex(fs, id, i, j);
    ReplacedIds(form, id, r);
    ReplacedAgain(form, id, r, id, fs);
  }

  lemma MovedIndex(fs: seq<Field>, id: string, i: nat, j: nat)
    requires Unique(fs) && i < |fs| && j < |fs| && fs[i].id == id
    ensures var r := MovedTo(fs, i, j); HasChild(r, id) && |r| == |fs| && IndexOf(r, id) == j
  {
    MovedIds(fs, i, j);
    var r := MovedTo(fs, i, j);
    assert r[j] in r;
    IndexOfUnique(r, j);
  }

  lemma MovedBackAgain(form: seq<Field>, id: string, i: nat, j: nat)
    requires Unique(form) && id in Ids(form) && i == IndexOf(Siblings(form, id), id)
    requires i < |Siblings(form, id)| && j < |Siblings(form, id)|
    ensures WithSiblings(WithSiblings(form, id, MovedTo(Siblings(form, id), i, j)), id, Siblings(form, id)) == form
    ensures MovedTo(MovedTo(Siblings(form, id), i, j), j, i) == Siblings(form, id)
  {
    var fs := Siblings(form, id);
    SiblingsUnique(form, id);
    MovedIds(fs, i, j);
    MovedBack(fs, i, j);
    var r := MovedTo(fs, i, j);
    assert HasChild(r, id) by { assert r[j] in r; }
    ReplacedAgain(form, id, r, id, fs);
  }

  // ------------------------------------------------------------------------- runs

  datatype Edit =
    | Add(afterId: string, fieldType: string)
    | Remove(id: string)
    | Move(id: string, delta: int)

  /** A field is moved from the form itself; the other edits take any id. */
  predicate Possible(form: seq<Field>, edit: Edit) {
    edit.Move? ==> edit.id in Ids(form)
  }

  function Apply(form: seq<Field>, edit: Edit): seq<Field>
    requires Possible(form, edit)
  {
    match edit
    case Add(afterId, fieldType) =>
      var r := AddChildFieldAfter(form, afterId, fieldType);
      if r.Added? then r.form else form
    case Remove(id) => RemoveField(form, id)
    case Move(id, delta) => MoveField(form, id, delta)
  }

  /** The form after the edits; impossible ones are skipped. */
  function AfterEdits(form: seq<Field>, edits: seq<Edit>): seq<Field> {
    if edits == [] then form
    else
      var before := AfterEdits(form, edits[..|edits| - 1]);
      var last := edits[|edits| - 1];
      if Possible(before, last) then Apply(before, last) else before
  }

  lemma ApplyKeepsUnique(form: seq<Field>, edit: Edit)
    requires Unique(form) && Possible(form, edit)
    ensures Unique(Apply(form, edit))
  {
    match edit
    case Add(afterId, fieldType) =>
      if AddChildFieldAfter(form, afterId, fieldType).Added? { AddKeepsUnique(form, afterId, fieldType); }
    case Remove(id) => RemoveKeepsUnique(form, id);
    case Move(id, delta) => MoveThenBack(form, id, delta);
  }

  /** However a form is edited, no id ever occurs twice. */
  lemma {:induction false} EditsKeepIdsUnique(form: seq<Field>, edits: seq<Edit>)
    requires Unique(form)
    ensures Unique(AfterEdits(form, edits))
  {
    if edits != [] {
      EditsKeepIdsUnique(form, edits[..|edits| - 1]);
      var before := AfterEdits(form, edits[..|edits| - 1]);
      if Possible(before, edits[|edits| - 1]) { ApplyKeepsUnique(before, edits[|edits| - 1]); }
    }
  }

  // --------------------------------------------------------------- the controller

  /** The item stands at its new index, the others in their old order around it. */
  method MoveInList(fields: seq<Field>, oldIndex: nat, newIndex: nat) returns (updated: seq<Field>)
    requires oldIndex < |fields| && newIndex < |fields|
    ensures |updated| == |fields| && multiset(updated) == multiset(fields)
    ensures updated[newIndex] == fields[oldIndex]
    ensures Dropped(updated, newIndex) == Dropped(fields, oldIndex)
  {
    var item := fields[oldIndex];
    var fieldsWithoutItem := fields[..oldIndex] + fields[oldIndex + 1..];
    updated := fieldsWithoutItem[..newIndex] + [item] + fieldsWithoutItem[newIndex..];
    assert updated == MovedTo(fields, oldIndex, newIndex);
    MovedMultiset(fields, oldIndex, newIndex);
    MovedBack(fields, oldIndex, newIndex);
  }

  class FormEditorController {
    var formDraft: seq<Field>
    var allowEditing: bool

    constructor(form: seq<Field>, allowed: bool)
      ensures formDraft == form && allowEditing == allowed
    {
      formDraft := form;
      allowEditing := allowed;
    }

    /** Thrown stands for an exception; Rejected for a controller that may not edit. */
    method AddFieldAfter(afterId: string, fieldType: string) returns (result: Option<Added>)
      modifies this`formDraft
      ensures allowEditing ==> result == Some(AddChildFieldAfter(old(formDraft), afterId, fieldType))
      ensures !allowEditing ==> result == None
      ensures formDraft == if result.Some? && result.value.Added? then result.value.form else old(formDraft)
    {
      if !allowEditing { return None; }
      var parent := FindParent(formDraft, afterId);
      var childArray := if parent.Some? then parent.value.children else formDraft;
      var indexOfNewChild := 0;
      if Find(formDraft, afterId).Some? { indexOfNewChild := IndexOf(childArray, afterId) + 1; }
      var newId: string;
      if parent.Some? && parent.value.fieldType == "growingFieldsetChild" {
        newId := GenerateUniqueId(Ids(formDraft), parent.value.id + "." + fieldType, 0, "_");
      } else {
        newId := GenerateUniqueId(Ids(formDraft), fieldType, 0, "-");
      }
      var newChild := CreateNewField(Ids(formDraft), fieldType, newId);
      if newChild.None? { return Some(Thrown); }
      childArray := childArray[..indexOfNewChild] + [newChild.value] + childArray[indexOfNewChild..];
      if parent.Some? {
        formDraft := WithChildren(formDraft, parent.value.id, childArray);
      } else {
        formDraft := childArray;
      }
      return Some(Added(formDraft, newChild.value));
    }

    method Remove(id: string)
      modifies this`formDraft
      ensures formDraft == if allowEditing then RemoveField(old(formDraft), id) else old(formDraft)
    {
      if !allowEditing { return; }
      var parent := FindParent(formDraft, id);
      if parent.Some? {
        formDraft := WithChildren(formDraft, parent.value.id, RemoveById(parent.value.children, id));
      } else {
        formDraft := RemoveById(formDraft, id);
      }
    }

    method Move(id: string, indexDelta: int)
      requires id in Ids(formDraft)
      modifies this`formDraft
      ensures formDraft == if allowEditing then MoveField(old(formDraft), id, indexDelta) else old(formDraft)
    {
      if !allowEditing { return; }
      InSiblings(formDraft, id);
      var parent := FindParent(formDraft, id);
      var fields := if parent.Some? then parent.value.children else formDraft;
      var oldIndex := IndexOf(fields, id);
      var newIndex := oldIndex + indexDelta;
      if newIndex < 0 || newIndex > |fields| - 1 { return; }
      var updated := MoveInList(fields, oldIndex, newIndex);
      TakenOut(updated, newIndex);
      if parent.Some? {
        formDraft := WithChildren(formDraft, parent.value.id, updated);
      } else {
        formDraft := updated;
      }
    }
  }
}
