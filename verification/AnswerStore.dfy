/** Field identifiers of a form, by their parts. The strings the program uses for
    them, and the string functions that take them apart, are in module FieldIds. */
module FieldIdentity {
  datatype Id =
    | Plain(name: string)                            // a field outside every growing fieldset
    | Fieldset(fs: string)                           // a growing fieldset
    | Row(fs: string, index: nat)                    // one of its rows
    | Leaf(fs: string, index: nat, name: string)     // a field in a row
}

/** The answers of a form: a tree of key/value nodes that is searched in preorder
    and edited in place. */
module AnswerStore {
  import opened FieldIdentity
  import opened Options
  import opened Texts

  datatype Value = Flat(text: string) | List(entries: seq<Entry>)

  datatype Entry = Entry(key: Id, value: Value, fieldType: string)

  /** What is written to which field. */
  datatype Update = Update(id: Id, value: string, fieldType: string)

  const GROWING_FIELDSET := "growingFieldset"
  const GROWING_FIELDSET_CHILD := "growingFieldsetChild"

  // ---------------------------------------------------------------- operations

  /** The value of the first node, in preorder, that has the key. */
  function Find(es: seq<Entry>, key: Id): Option<Value>
    decreases es
  {
    if es == [] then None
    else if es[0].key == key then Some(es[0].value)
    else
      match es[0].value
      case Flat(_) => Find(es[1..], key)
      case List(kids) =>
        var inside := Find(kids, key);
        if inside.Some? then inside else Find(es[1..], key)
  }

  /** What a field reads as; a field without a node reads as the empty string. */
  function Read(es: seq<Entry>, key: Id): Value {
    var found := Find(es, key);
    if found.Some? then found.value else Flat("")
  }

  /** Sets the value of the first direct child with the key, or appends a node. */
  function WriteChild(es: seq<Entry>, key: Id, value: Value, fieldType: string): seq<Entry> {
    if es == [] then [Entry(key, value, fieldType)]
    else if es[0].key == key then [es[0].(value := value)] + es[1..]
    else [es[0]] + WriteChild(es[1..], key, value, fieldType)
  }

  /** Applies f to the children of the first node, in preorder, that has the key. */
  function OnChildren(es: seq<Entry>, key: Id, f: seq<Entry> -> seq<Entry>): seq<Entry>
    decreases es
  {
    if es == [] then []
    else if es[0].key == key then
      (match es[0].value
       case Flat(_) => es
       case List(kids) => [es[0].(value := List(f(kids)))] + es[1..])
    else
      match es[0].value
      case Flat(_) => [es[0]] + OnChildren(es[1..], key, f)
      case List(kids) =>
        if Find(kids, key).Some? then [es[0].(value := List(OnChildren(kids, key, f)))] + es[1..]
        else [es[0]] + OnChildren(es[1..], key, f)
  }

  function Children(v: Value): seq<Entry> {
    match v
    case Flat(_) => []
    case List(kids) => kids
  }

  /** Writes a field of the given row: the set's node and the row's node are made
      first where they are missing. */
  function WriteInRow(es: seq<Entry>, fs: string, row: Id, u: Update): seq<Entry> {
    var withSet :=
      if Find(es, Fieldset(fs)).None? then WriteChild(es, Fieldset(fs), List([]), GROWING_FIELDSET) else es;
    var withRow :=
      if Find(Children(Read(withSet, Fieldset(fs))), row).None? then
        OnChildren(withSet, Fieldset(fs), kids => WriteChild(kids, row, List([]), GROWING_FIELDSET_CHILD))
      else withSet;
    OnChildren(withRow, row, kids => WriteChild(kids, u.id, Flat(u.value), u.fieldType))
  }

  /** Writes a field where the form has it: at the root, or in its row. */
  function Write(es: seq<Entry>, u: Update): seq<Entry>
    requires u.id.Plain? || u.id.Leaf?
  {
    match u.id
    case Plain(_) => WriteChild(es, u.id, Flat(u.value), u.fieldType)
    case Leaf(fs, index, _) => WriteInRow(es, fs, Row(fs, index), u)
  }

  function RemoveKey(es: seq<Entry>, key: Id): seq<Entry> {
    if es == [] then []
    else if es[0].key == key then RemoveKey(es[1..], key)
    else [es[0]] + RemoveKey(es[1..], key)
  }

  /** Removes a row's node from its set's node. */
  function DeleteRow(es: seq<Entry>, fs: string, row: Id): seq<Entry> {
    if Find(es, Fieldset(fs)).None? then es else OnChildren(es, Fieldset(fs), kids => RemoveKey(kids, row))
  }

  // ------------------------------------------- answers laid out as the form has them

  ghost predicate UniqueKeys(es: seq<Entry>) {
    es != [] ==> (forall e | e in es[1..] :: e.key != es[0].key) && UniqueKeys(es[1..])
  }

  ghost predicate LeafEntry(fs: string, index: nat, e: Entry) {
    e.key.Leaf? && e.key.fs == fs && e.key.index == index && e.value.Flat?
  }

  ghost predicate LeavesPlaced(fs: string, index: nat, es: seq<Entry>) {
    UniqueKeys(es) && forall e | e in es :: LeafEntry(fs, index, e)
  }

  ghost predicate RowEntry(fs: string, e: Entry) {
    e.key.Row? && e.key.fs == fs && e.value.List? && LeavesPlaced(fs, e.key.index, e.value.entries)
  }

  ghost predicate RowsPlaced(fs: string, es: seq<Entry>) {
    UniqueKeys(es) && forall e | e in es :: RowEntry(fs, e)
  }

  ghost predicate RootEntry(e: Entry) {
    || (e.key.Plain? && e.value.Flat?)
    || (e.key.Fieldset? && e.value.List? && RowsPlaced(e.key.fs, e.value.entries))
  }

  /** Unique keys, and every node where the form has its field. */
  ghost predicate Placed(es: seq<Entry>) {
    UniqueKeys(es) && forall e | e in es :: RootEntry(e)
  }

  // ----------------------------------------------------- what such answers mean

  type LeafValues = TextMap

  function LeafView(es: seq<Entry>): LeafValues {
    if es == [] then map[]
    else
      var rest := LeafView(es[1..]);
      match (es[0].key, es[0].value)
      case (Leaf(_, _, name), Flat(text)) => rest[name := text]
      case _ => rest
  }

  function RowView(es: seq<Entry>): map<nat, LeafValues> {
    if es == [] then map[]
    else
      var rest := RowView(es[1..]);
      match (es[0].key, es[0].value)
      case (Row(_, index), List(kids)) => rest[index := LeafView(kids)]
      case _ => rest
  }

  function SetView(es: seq<Entry>, fs: string): map<nat, LeafValues> {
    RowView(Children(Read(es, Fieldset(fs))))
  }

  // ------------------------------------------------------ reading through the view

  lemma {:induction false} FindAmongLeaves(fs: string, index: nat, es: seq<Entry>, key: Id)
    requires LeavesPlaced(fs, index, es)
    ensures Find(es, key) ==
      if key.Leaf? && key.fs == fs && key.index == index && key.name in LeafView(es)
      then Some(Flat(LeafView(es)[key.name])) else None
  {
    if es != [] {
      assert es[0] in es && forall e | e in es[1..] :: e in es;
      FindAmongLeaves(fs, index, es[1..], key);
    }
  }

  lemma {:induction false} FindAmongRows(fs: string, es: seq<Entry>, key: Id)
    requires RowsPlaced(fs, es)
    ensures key.Leaf? && key.fs == fs && key.index in RowView(es) && key.name in RowView(es)[key.index] ==>
      Find(es, key) == Some(Flat(RowView(es)[key.index][key.name]))
    ensures key.Row? && key.fs == fs && key.index in RowView(es) ==>
      && Find(es, key).Some? && Find(es, key).value.List?
      && LeavesPlaced(fs, key.index, Find(es, key).value.entries)
      && LeafView(Find(es, key).value.entries) == RowView(es)[key.index]
    ensures Find(es, key).Some? ==>
      && (key.Leaf? || key.Row?) && key.fs == fs && key.index in RowView(es)
      && (key.Leaf? ==> key.name in RowView(es)[key.index])
    ensures forall e | e in es :: e.key.index in RowView(es)
  {
    if es != [] {
      assert es[0] in es && forall e | e in es[1..] :: e in es;
      FindAmongRows(fs, es[1..], key);
      FindAmongLeaves(fs, es[0].key.index, es[0].value.entries, key);
      RowViewKeys(fs, es[1..], es[0].key.index);
    }
  }

  lemma {:induction false} RowViewKeys(fs: string, es: seq<Entry>, index: nat)
    requires RowsPlaced(fs, es)
    ensures index in RowView(es) <==> exists e :: e in es && e.key == Row(fs, index)
  {
    if es != [] {
      assert es[0] in es && forall e | e in es[1..] :: e in es;
      RowViewKeys(fs, es[1..], index);
      assert es == [es[0]] + es[1..];
    }
  }

  function PlainView(es: seq<Entry>): TextMap {
    if es == [] then map[]
    else
      var rest := PlainView(es[1..]);
      match (es[0].key, es[0].value)
      case (Plain(name), Flat(text)) => rest[name := text]
      case _ => rest
  }

  lemma HeadAndTail(es: seq<Entry>)
    requires es != [] && UniqueKeys(es)
    ensures es[0] in es && es == [es[0]] + es[1..] && UniqueKeys(es[1..])
    ensures forall e | e in es[1..] :: e in es && e.key != es[0].key
  {
  }

  lemma {:induction false} FindAtRoot(es: seq<Entry>, key: Id)
    requires Placed(es)
    ensures key.Plain? ==>
      Find(es, key) == if key.name in PlainView(es) then Some(Flat(PlainView(es)[key.name])) else None
    ensures key.Fieldset? && Find(es, key).Some? ==>
      Find(es, key).value.List? && RowsPlaced(key.fs, Find(es, key).value.entries)
    ensures key.Fieldset? ==> (Find(es, key).Some? <==> exists e :: e in es && e.key == key)
    ensures key.Row? || key.Leaf? ==>
      Find(es, key) == Find(Children(Read(es, Fieldset(key.fs))), key)
  {
    if es != [] {
      HeadAndTail(es);
      FindAtRoot(es[1..], key);
      if es[0].value.List? {
        FindAmongRows(es[0].key.fs, es[0].value.entries, key);
        if key.Row? || key.Leaf? {
          FindAmongRows(es[0].key.fs, es[0].value.entries, Fieldset(key.fs));
          FindAtRoot(es[1..], Fieldset(key.fs));
        }
      }
    }
  }

  // ----------------------------------------------------------- what a write does

  lemma {:induction false} WriteChildElements(es: seq<Entry>, key: Id, value: Value, ft: string)
    requires UniqueKeys(es)
    ensures var r := WriteChild(es, key, value, ft);
      && UniqueKeys(r)
      && (forall e | e in r :: (e in es && e.key != key) || (e.key == key && e.value == value))
      && (exists e :: e in r && e.key == key)
  {
    var r := WriteChild(es, key, value, ft);
    if es == [] {
      assert r[1..] == [] && r[0] in r;
    } else if es[0].key == key {
      assert r[1..] == es[1..] && r[0] in r;
    } else {
      WriteChildStep(es, key, value, ft);
      WriteChildElements(es[1..], key, value, ft);
      assert r == [r[0]] + r[1..];
      var e :| e in r[1..] && e.key == key;
      assert e in r;
    }
  }

  lemma {:induction false} WriteChildTwice(es: seq<Entry>, key: Id, v1: Value, v2: Value, ft: string, ft2: string)
    ensures WriteChild(WriteChild(es, key, v1, ft), key, v2, ft2) == WriteChild(es, key, v2, ft)
  {
    if es != [] && es[0].key != key {
      WriteChildTwice(es[1..], key, v1, v2, ft, ft2);
    }
  }

  lemma UpdatesSwap<K, V>(m: map<K, V>, k1: K, v1: V, k2: K, v2: V)
    requires k1 != k2
    ensures m[k1 := v1][k2 := v2] == m[k2 := v2][k1 := v1]
  {
  }

  lemma UpdateTwice<K, V>(m: map<K, V>, k: K, v1: V, v2: V)
    ensures m[k := v1][k := v2] == m[k := v2]
  {
  }

  /** The one step of WriteChild's recursion that goes on. */
  lemma WriteChildStep(es: seq<Entry>, key: Id, value: Value, ft: string)
    requires es != [] && es[0].key != key
    ensures var r := WriteChild(es, key, value, ft);
      r != [] && r[0] == es[0] && r[1..] == WriteChild(es[1..], key, value, ft)
  {
  }

  lemma LeavesPlacedAfterWrite(es: seq<Entry>, fs: string, index: nat, u: Update)
    requires LeavesPlaced(fs, index, es) && u.id.Leaf? && u.id.fs == fs && u.id.index == index
    ensures LeavesPlaced(fs, index, WriteChild(es, u.id, Flat(u.value), u.fieldType))
  {
    WriteChildElements(es, u.id, Flat(u.value), u.fieldType);
  }

  lemma {:induction false} LeafViewOfWrite(es: seq<Entry>, fs: string, index: nat, u: Update)
    requires (forall e | e in es :: LeafEntry(fs, index, e)) && u.id.Leaf? && u.id.fs == fs && u.id.index == index
    ensures LeafView(WriteChild(es, u.id, Flat(u.value), u.fieldType)) == LeafView(es)[u.id.name := u.value]
  {
    var r := WriteChild(es, u.id, Flat(u.value), u.fieldType);
    if es == [] {
      assert r[1..] == [];
    } else {
      assert es[0] in es && LeafEntry(fs, index, es[0]);
      var tail := LeafView(es[1..]);
      if es[0].key == u.id {
        assert r[1..] == es[1..];
        UpdateTwice(tail, u.id.name, es[0].value.text, u.value);
      } else {
        WriteChildStep(es, u.id, Flat(u.value), u.fieldType);
        LeafViewOfWrite(es[1..], fs, index, u);
        UpdatesSwap(tail, u.id.name, u.value, es[0].key.name, es[0].value.text);
      }
    }
  }

  lemma RowsPlacedAfterWrite(es: seq<Entry>, fs: string, index: nat, leaves: seq<Entry>, ft: string)
    requires RowsPlaced(fs, es) && LeavesPlaced(fs, index, leaves)
    ensures RowsPlaced(fs, WriteChild(es, Row(fs, index), List(leaves), ft))
  {
    WriteChildElements(es, Row(fs, index), List(leaves), ft);
  }

  ghost predicate IsRowEntry(fs: string, e: Entry) {
    e.key.Row? && e.key.fs == fs && e.value.List?
  }

  lemma {:induction false} RowViewOfWrite(es: seq<Entry>, fs: string, index: nat, leaves: seq<Entry>, ft: string)
    requires forall e | e in es :: IsRowEntry(fs, e)
    ensures RowView(WriteChild(es, Row(fs, index), List(leaves), ft)) == RowView(es)[index := LeafView(leaves)]
  {
    var key := Row(fs, index);
    var r := WriteChild(es, key, List(leaves), ft);
    if es == [] {
      assert r[1..] == [];
    } else {
      assert es[0] in es && IsRowEntry(fs, es[0]);
      var tail := RowView(es[1..]);
      if es[0].key == key {
        assert r[1..] == es[1..];
        UpdateTwice(tail, index, LeafView(es[0].value.entries), LeafView(leaves));
      } else {
        WriteChildStep(es, key, List(leaves), ft);
        RowViewOfWrite(es[1..], fs, index, leaves, ft);
        UpdatesSwap(tail, index, LeafView(leaves), es[0].key.index, LeafView(es[0].value.entries));
      }
    }
  }

  lemma RowEntries(fs: string, es: seq<Entry>)
    requires RowsPlaced(fs, es)
    ensures forall e | e in es :: IsRowEntry(fs, e)
  {
    forall e | e in es ensures IsRowEntry(fs, e) { assert RowEntry(fs, e); }
  }

  lemma {:induction false} RootOfWrite(es: seq<Entry>, fs: string, rows: seq<Entry>, ft: string)
    requires Placed(es) && RowsPlaced(fs, rows)
    ensures var r := WriteChild(es, Fieldset(fs), List(rows), ft);
      && Placed(r) && PlainView(r) == PlainView(es)
      && Read(r, Fieldset(fs)) == List(rows)
      && forall other | other != fs :: Find(r, Fieldset(other)) == Find(es, Fieldset(other))
  {
    WriteChildElements(es, Fieldset(fs), List(rows), ft);
    forall other { FindAmongRows(fs, rows, Fieldset(other)); }
    if es != [] {
      HeadAndTail(es);
      if es[0].key != Fieldset(fs) {
        RootOfWrite(es[1..], fs, rows, ft);
        if es[0].value.List? {
          forall other { FindAmongRows(es[0].key.fs, es[0].value.entries, Fieldset(other)); }
        }
      } else {
        forall other { FindAmongRows(fs, es[0].value.entries, Fieldset(other)); }
      }
    }
  }

  lemma {:induction false} OnChildrenOfSet(es: seq<Entry>, fs: string, f: seq<Entry> -> seq<Entry>, ft: string)
    requires Placed(es) && Find(es, Fieldset(fs)).Some?
    ensures OnChildren(es, Fieldset(fs), f) ==
      WriteChild(es, Fieldset(fs), List(f(Children(Read(es, Fieldset(fs))))), ft)
  {
    HeadAndTail(es);
    if es[0].key != Fieldset(fs) {
      if es[0].value.List? { FindAmongRows(es[0].key.fs, es[0].value.entries, Fieldset(fs)); }
      OnChildrenOfSet(es[1..], fs, f, ft);
    }
  }

  lemma {:induction false} OnChildrenOfRowInSet(es: seq<Entry>, fs: string, index: nat, f: seq<Entry> -> seq<Entry>, ft: string)
    requires RowsPlaced(fs, es) && Find(es, Row(fs, index)).Some?
    ensures OnChildren(es, Row(fs, index), f) ==
      WriteChild(es, Row(fs, index), List(f(Children(Read(es, Row(fs, index))))), ft)
  {
    HeadAndTail(es);
    if es[0].key != Row(fs, index) {
      FindAmongLeaves(fs, es[0].key.index, es[0].value.entries, Row(fs, index));
      OnChildrenOfRowInSet(es[1..], fs, index, f, ft);
    }
  }

  lemma {:induction false} OnChildrenOfRow(es: seq<Entry>, fs: string, index: nat, f: seq<Entry> -> seq<Entry>, ft: string)
    requires Placed(es) && Find(es, Row(fs, index)).Some?
    ensures OnChildren(es, Row(fs, index), f) ==
      WriteChild(es, Fieldset(fs), List(OnChildren(Children(Read(es, Fieldset(fs))), Row(fs, index), f)), ft)
  {
    HeadAndTail(es);
    FindAtRoot(es, Row(fs, index));
    if es[0].key != Fieldset(fs) {
      if es[0].value.List? {
        FindAmongRows(es[0].key.fs, es[0].value.entries, Fieldset(fs));
        FindAmongRows(es[0].key.fs, es[0].value.entries, Row(fs, index));
      }
      OnChildrenOfRow(es[1..], fs, index, f, ft);
    } else {
      FindAmongRows(fs, es[0].value.entries, Row(fs, index));
    }
  }

  function RowsOf(es: seq<Entry>, fs: string): seq<Entry> {
    Children(Read(es, Fieldset(fs)))
  }

  /** The three nested writes that a write into a row amounts to. */
  function NestedWrite(es: seq<Entry>, fs: string, index: nat, u: Update): seq<Entry> {
    var leaves := WriteChild(Children(Read(RowsOf(es, fs), Row(fs, index))), u.id, Flat(u.value), u.fieldType);
    var rows := WriteChild(RowsOf(es, fs), Row(fs, index), List(leaves), GROWING_FIELDSET_CHILD);
    WriteChild(es, Fieldset(fs), List(rows), GROWING_FIELDSET)
  }

  lemma RowsOfPlaced(es: seq<Entry>, fs: string)
    requires Placed(es)
    ensures RowsPlaced(fs, RowsOf(es, fs))
  {
    FindAtRoot(es, Fieldset(fs));
  }

  lemma LeavesOfPlaced(rows: seq<Entry>, fs: string, index: nat)
    requires RowsPlaced(fs, rows)
    ensures LeavesPlaced(fs, index, Children(Read(rows, Row(fs, index))))
    ensures LeafView(Children(Read(rows, Row(fs, index)))) ==
      if index in RowView(rows) then RowView(rows)[index] else map[]
  {
    FindAmongRows(fs, rows, Row(fs, index));
  }

  lemma {:induction false} FindWrittenRow(rows: seq<Entry>, fs: string, index: nat, value: Value, ft: string)
    requires RowsPlaced(fs, rows)
    ensures Find(WriteChild(rows, Row(fs, index), value, ft), Row(fs, index)) == Some(value)
  {
    if rows != [] {
      HeadAndTail(rows);
      if rows[0].key != Row(fs, index) {
        FindAmongLeaves(fs, rows[0].key.index, rows[0].value.entries, Row(fs, index));
        FindWrittenRow(rows[1..], fs, index, value, ft);
      }
    }
  }

  /** Whether or not the set and the row have nodes yet, a write into a row is the
      three nested writes. */
  lemma WriteInRowIsNested(es: seq<Entry>, fs: string, index: nat, u: Update)
    requires Placed(es) && u.id.Leaf? && u.id.fs == fs && u.id.index == index
    ensures WriteInRow(es, fs, Row(fs, index), u) == NestedWrite(es, fs, index, u)
  {
    var row := Row(fs, index);
    var withSet :=
      if Find(es, Fieldset(fs)).None? then WriteChild(es, Fieldset(fs), List([]), GROWING_FIELDSET) else es;
    FindAtRoot(es, Fieldset(fs));
    var rows := RowsOf(es, fs);
    if Find(es, Fieldset(fs)).None? { RootOfWrite(es, fs, [], GROWING_FIELDSET); }
    assert Placed(withSet) && RowsOf(withSet, fs) == rows;
    FindAtRoot(withSet, Fieldset(fs));
    assert Find(withSet, Fieldset(fs)).Some? by {
      if Find(es, Fieldset(fs)).None? { WriteChildElements(es, Fieldset(fs), List([]), GROWING_FIELDSET); }
    }
    var makeRow := (kids: seq<Entry>) => WriteChild(kids, row, List([]), GROWING_FIELDSET_CHILD);
    var rows2 := if Find(rows, row).None? then makeRow(rows) else rows;
    var withRow := if Find(rows, row).None? then OnChildren(withSet, Fieldset(fs), makeRow) else withSet;
    if Find(rows, row).None? {
      OnChildrenOfSet(withSet, fs, makeRow, GROWING_FIELDSET);
      RowsPlacedAfterWrite(rows, fs, index, [], GROWING_FIELDSET_CHILD);
      RootOfWrite(withSet, fs, rows2, GROWING_FIELDSET);
      FindWrittenRow(rows, fs, index, List([]), GROWING_FIELDSET_CHILD);
    }
    assert Placed(withRow) && RowsOf(withRow, fs) == rows2 && RowsPlaced(fs, rows2);
    FindAmongRows(fs, rows2, row);
    FindAtRoot(withRow, row);
    var fill := (kids: seq<Entry>) => WriteChild(kids, u.id, Flat(u.value), u.fieldType);
    OnChildrenOfRow(withRow, fs, index, fill, GROWING_FIELDSET);
    OnChildrenOfRowInSet(rows2, fs, index, fill, GROWING_FIELDSET_CHILD);
    var leaves := fill(Children(Read(rows, row)));
    assert leaves == fill(Children(Read(rows2, row)));
    WriteChildTwice(rows, row, List([]), List(leaves), GROWING_FIELDSET_CHILD, GROWING_FIELDSET_CHILD);
    var rows3 := WriteChild(rows, row, List(leaves), GROWING_FIELDSET_CHILD);
    assert rows3 == OnChildren(rows2, row, fill);
    WriteChildTwice(withSet, Fieldset(fs), List(rows2), List(rows3), GROWING_FIELDSET, GROWING_FIELDSET);
    WriteChildTwice(es, Fieldset(fs), List([]), List(rows3), GROWING_FIELDSET, GROWING_FIELDSET);
    assert WriteInRow(es, fs, row, u) == OnChildren(withRow, row, fill);
  }

  function LeavesAt(rows: map<nat, LeafValues>, index: nat): LeafValues {
    if index in rows then rows[index] else map[]
  }

  /** A field reads what its row holds for it, or the empty string. */
  lemma ReadMeans(es: seq<Entry>, id: Id)
    requires Placed(es) && (id.Plain? || id.Leaf?)
    ensures id.Plain? ==> Read(es, id) == Flat(TextAt(PlainView(es), id.name))
    ensures id.Leaf? ==> Read(es, id) == Flat(TextAt(LeavesAt(SetView(es, id.fs), id.index), id.name))
  {
    FindAtRoot(es, id);
    if id.Leaf? {
      RowsOfPlaced(es, id.fs);
      FindAmongRows(id.fs, RowsOf(es, id.fs), id);
    }
  }

  /** A write into a row changes that one field of that one row and keeps the layout. */
  lemma WriteInRowMeans(es: seq<Entry>, u: Update)
    requires Placed(es) && u.id.Leaf?
    ensures var r := Write(es, u);
      && Placed(r) && PlainView(r) == PlainView(es)
      && SetView(r, u.id.fs) ==
         SetView(es, u.id.fs)[u.id.index := LeavesAt(SetView(es, u.id.fs), u.id.index)[u.id.name := u.value]]
      && forall other | other != u.id.fs :: SetView(r, other) == SetView(es, other)
  {
    var fs, index := u.id.fs, u.id.index;
    WriteInRowIsNested(es, fs, index, u);
    RowsOfPlaced(es, fs);
    LeavesOfPlaced(RowsOf(es, fs), fs, index);
    var leaves := Children(Read(RowsOf(es, fs), Row(fs, index)));
    LeafViewOfWrite(leaves, fs, index, u);
    LeavesPlacedAfterWrite(leaves, fs, index, u);
    var leaves2 := WriteChild(leaves, u.id, Flat(u.value), u.fieldType);
    RowEntries(fs, RowsOf(es, fs));
    RowViewOfWrite(RowsOf(es, fs), fs, index, leaves2, GROWING_FIELDSET_CHILD);
    RowsPlacedAfterWrite(RowsOf(es, fs), fs, index, leaves2, GROWING_FIELDSET_CHILD);
    RootOfWrite(es, fs, WriteChild(RowsOf(es, fs), Row(fs, index), List(leaves2), GROWING_FIELDSET_CHILD), GROWING_FIELDSET);
  }

  lemma PlacedAfterPlainWrite(es: seq<Entry>, u: Update)
    requires Placed(es) && u.id.Plain?
    ensures Placed(WriteChild(es, u.id, Flat(u.value), u.fieldType))
  {
    WriteChildElements(es, u.id, Flat(u.value), u.fieldType);
  }

  lemma {:induction false} PlainViewOfWrite(es: seq<Entry>, u: Update)
    requires u.id.Plain? && forall e | e in es && e.key.Plain? :: e.value.Flat?
    ensures PlainView(WriteChild(es, u.id, Flat(u.value), u.fieldType)) == PlainView(es)[u.id.name := u.value]
  {
    var r := WriteChild(es, u.id, Flat(u.value), u.fieldType);
    if es == [] {
      assert r[1..] == [];
    } else {
      assert es[0] in es;
      var tail := PlainView(es[1..]);
      if es[0].key == u.id {
        assert r[1..] == es[1..];
        UpdateTwice(tail, u.id.name, es[0].value.text, u.value);
      } else {
        WriteChildStep(es, u.id, Flat(u.value), u.fieldType);
        PlainViewOfWrite(es[1..], u);
        if es[0].key.Plain? { UpdatesSwap(tail, u.id.name, u.value, es[0].key.name, es[0].value.text); }
      }
    }
  }

  lemma {:induction false} SetsOfPlainWrite(es: seq<Entry>, u: Update, fs: string)
    requires Placed(es) && u.id.Plain?
    ensures Find(WriteChild(es, u.id, Flat(u.value), u.fieldType), Fieldset(fs)) == Find(es, Fieldset(fs))
  {
    if es != [] {
      HeadAndTail(es);
      if es[0].key != u.id { SetsOfPlainWrite(es[1..], u, fs); }
    }
  }

  /** A write outside the growing fieldsets changes that one field and keeps the layout. */
  lemma WritePlainMeans(es: seq<Entry>, u: Update)
    requires Placed(es) && u.id.Plain?
    ensures var r := Write(es, u);
      && Placed(r) && PlainView(r) == PlainView(es)[u.id.name := u.value]
      && forall fs :: SetView(r, fs) == SetView(es, fs)
  {
    PlacedAfterPlainWrite(es, u);
    assert forall e | e in es && e.key.Plain? :: RootEntry(e);
    PlainViewOfWrite(es, u);
    forall fs ensures SetView(Write(es, u), fs) == SetView(es, fs) { SetsOfPlainWrite(es, u, fs); }
  }

  lemma {:induction false} RemoveKeyElements(es: seq<Entry>, key: Id)
    requires UniqueKeys(es)
    ensures UniqueKeys(RemoveKey(es, key)) && forall e | e in RemoveKey(es, key) :: e in es && e.key != key
  {
    if es != [] {
      RemoveKeyElements(es[1..], key);
      var r := RemoveKey(es, key);
      if es[0].key != key { assert r[0] == es[0] && r[1..] == RemoveKey(es[1..], key); }
    }
  }

  lemma RowsPlacedAfterRemove(es: seq<Entry>, fs: string, key: Id)
    requires RowsPlaced(fs, es)
    ensures RowsPlaced(fs, RemoveKey(es, key))
  {
    RemoveKeyElements(es, key);
  }

  lemma RemoveUpdated<K, V>(m: map<K, V>, k1: K, v: V, k2: K)
    ensures m[k1 := v] - {k2} == if k1 == k2 then m - {k2} else (m - {k2})[k1 := v]
  {
  }

  lemma {:induction false} RemoveKeyMeans(es: seq<Entry>, fs: string, index: nat)
    requires forall e | e in es :: IsRowEntry(fs, e)
    ensures RowView(RemoveKey(es, Row(fs, index))) == RowView(es) - {index}
  {
    if es != [] {
      assert es[0] in es && IsRowEntry(fs, es[0]);
      RemoveKeyMeans(es[1..], fs, index);
      RemoveUpdated(RowView(es[1..]), es[0].key.index, LeafView(es[0].value.entries), index);
      var r := RemoveKey(es, Row(fs, index));
      if es[0].key != Row(fs, index) { assert r[1..] == RemoveKey(es[1..], Row(fs, index)); }
    }
  }

  /** Deleting a row forgets exactly that row. */
  lemma DeleteRowMeans(es: seq<Entry>, fs: string, index: nat)
    requires Placed(es)
    ensures var r := DeleteRow(es, fs, Row(fs, index));
      && Placed(r) && PlainView(r) == PlainView(es)
      && SetView(r, fs) == SetView(es, fs) - {index}
      && forall other | other != fs :: SetView(r, other) == SetView(es, other)
  {
    if Find(es, Fieldset(fs)).Some? {
      RowsOfPlaced(es, fs);
      RowEntries(fs, RowsOf(es, fs));
      RemoveKeyMeans(RowsOf(es, fs), fs, index);
      RowsPlacedAfterRemove(RowsOf(es, fs), fs, Row(fs, index));
      OnChildrenOfSet(es, fs, kids => RemoveKey(kids, Row(fs, index)), GROWING_FIELDSET);
      RootOfWrite(es, fs, RemoveKey(RowsOf(es, fs), Row(fs, index)), GROWING_FIELDSET);
    }
  }

  // ------------------------------------------------------------ laws of the store

  ghost predicate IsField(id: Id) {
    id.Plain? || id.Leaf?
  }

  /** A field reads back what was written to it, every other field reads as before,
      and the answers stay laid out as the form has them. */
  lemma ReadAfterWrite(es: seq<Entry>, u: Update, id: Id)
    requires Placed(es) && IsField(u.id) && IsField(id)
    ensures Placed(Write(es, u))
    ensures Read(Write(es, u), id) == if id == u.id then Flat(u.value) else Read(es, id)
  {
    if u.id.Leaf? { WriteInRowMeans(es, u); } else { WritePlainMeans(es, u); }
    ReadMeans(es, id);
    ReadMeans(Write(es, u), id);
  }

  /** Writes to two different fields commute for every reader. */
  lemma WritesCommute(es: seq<Entry>, u1: Update, u2: Update, id: Id)
    requires Placed(es) && IsField(u1.id) && IsField(u2.id) && u1.id != u2.id && IsField(id)
    ensures Read(Write(Write(es, u1), u2), id) == Read(Write(Write(es, u2), u1), id)
  {
    ReadAfterWrite(es, u1, id);
    ReadAfterWrite(es, u2, id);
    ReadAfterWrite(Write(es, u1), u2, id);
    ReadAfterWrite(Write(es, u2), u1, id);
  }

  /** Of two writes to a field only the second can be read. */
  lemma LastWriteWins(es: seq<Entry>, u1: Update, u2: Update, id: Id)
    requires Placed(es) && IsField(u1.id) && u1.id == u2.id && IsField(id)
    ensures Read(Write(Write(es, u1), u2), id) == Read(Write(es, u2), id)
  {
    ReadAfterWrite(es, u1, id);
    ReadAfterWrite(es, u2, id);
    ReadAfterWrite(Write(es, u1), u2, id);
  }

  /** A deleted row reads empty in every field; everything else reads as before. */
  lemma ReadAfterDelete(es: seq<Entry>, fs: string, index: nat, id: Id)
    requires Placed(es) && IsField(id)
    ensures Placed(DeleteRow(es, fs, Row(fs, index)))
    ensures Read(DeleteRow(es, fs, Row(fs, index)), id) ==
      if id.Leaf? && id.fs == fs && id.index == index then Flat("") else Read(es, id)
  {
    DeleteRowMeans(es, fs, index);
    ReadMeans(es, id);
    ReadMeans(DeleteRow(es, fs, Row(fs, index)), id);
  }

  // ------------------------------------------------------------------ types of nodes

  function Child(es: seq<Entry>, key: Id): Option<Entry> {
    if es == [] then None else if es[0].key == key then Some(es[0]) else Child(es[1..], key)
  }

  function Inside(e: Option<Entry>): seq<Entry> {
    if e.Some? then Children(e.value.value) else []
  }

  /** The node of a field, a row or a fieldset, where the form has it. */
  function NodeOf(es: seq<Entry>, id: Id): Option<Entry> {
    match id
    case Plain(_) => Child(es, id)
    case Fieldset(_) => Child(es, id)
    case Row(fs, _) => Child(Inside(Child(es, Fieldset(fs))), id)
    case Leaf(fs, index, _) => Child(Inside(Child(Inside(Child(es, Fieldset(fs))), Row(fs, index))), id)
  }

  lemma {:induction false} RowsAreInside(es: seq<Entry>, fs: string)
    requires Placed(es)
    ensures RowsOf(es, fs) == Inside(Child(es, Fieldset(fs)))
  {
    if es != [] {
      HeadAndTail(es);
      if es[0].key != Fieldset(fs) {
        if es[0].value.List? { FindAmongRows(es[0].key.fs, es[0].value.entries, Fieldset(fs)); }
        RowsAreInside(es[1..], fs);
      }
    }
  }

  lemma {:induction false} LeavesAreInside(rows: seq<Entry>, fs: string, index: nat)
    requires RowsPlaced(fs, rows)
    ensures Children(Read(rows, Row(fs, index))) == Inside(Child(rows, Row(fs, index)))
  {
    if rows != [] {
      HeadAndTail(rows);
      if rows[0].key != Row(fs, index) {
        FindAmongLeaves(fs, rows[0].key.index, rows[0].value.entries, Row(fs, index));
        LeavesAreInside(rows[1..], fs, index);
      }
    }
  }

  lemma {:induction false} ChildWritten(es: seq<Entry>, key: Id, value: Value, fieldType: string, other: Id)
    ensures var was, r := Child(es, key), Child(WriteChild(es, key, value, fieldType), other);
      if other == key then r == Some(Entry(key, value, if was.Some? then was.value.fieldType else fieldType))
      else r == Child(es, other)
  {
    if es != [] && es[0].key != key { ChildWritten(es[1..], key, value, fieldType, other); }
  }

  /** The type that a node has after a write: its old one, or, if it is made, that of the
      field, the row or the fieldset. */
  function TypeAfterWrite(es: seq<Entry>, u: Update, id: Id): Option<string> {
    var was := NodeOf(es, id);
    if was.Some? then Some(was.value.fieldType)
    else if id == u.id then Some(u.fieldType)
    else if u.id.Leaf? && id == Row(u.id.fs, u.id.index) then Some(GROWING_FIELDSET_CHILD)
    else if u.id.Leaf? && id == Fieldset(u.id.fs) then Some(GROWING_FIELDSET)
    else None
  }

  /** A write makes the nodes that are missing, with their types, and keeps all others'. */
  lemma WriteKeepsTypes(es: seq<Entry>, u: Update, id: Id)
    requires Placed(es) && (u.id.Plain? || u.id.Leaf?)
    ensures var r := NodeOf(Write(es, u), id);
      TypeAfterWrite(es, u, id) == if r.Some? then Some(r.value.fieldType) else None
  {
    if u.id.Plain? {
      ChildWritten(es, u.id, Flat(u.value), u.fieldType, id);
      if id.Row? || id.Leaf? { ChildWritten(es, u.id, Flat(u.value), u.fieldType, Fieldset(id.fs)); }
    } else {
      RowWriteKeepsTypes(es, u, id);
    }
  }

  lemma {:induction false} ChildRemoved(es: seq<Entry>, key: Id, other: Id)
    ensures Child(RemoveKey(es, key), other) == if other == key then None else Child(es, other)
  {
    if es != [] { ChildRemoved(es[1..], key, other); }
  }

  lemma {:induction false} ChildIsFound(es: seq<Entry>, key: Id)
    requires Child(es, key).Some?
    ensures Find(es, key).Some?
  {
    if es[0].key != key { ChildIsFound(es[1..], key); }
  }

  /** A deletion takes away the nodes of the row and its fields, and keeps every other
      node's type. */
  lemma DeleteKeepsTypes(es: seq<Entry>, fs: string, index: nat, id: Id)
    requires Placed(es)
    ensures var was, r := NodeOf(es, id), NodeOf(DeleteRow(es, fs, Row(fs, index)), id);
      && (r.Some? <==> was.Some? && !((id.Row? || id.Leaf?) && id.fs == fs && id.index == index))
      && (r.Some? ==> r.value.fieldType == was.value.fieldType)
  {
    var row := Row(fs, index);
    if Find(es, Fieldset(fs)).Some? {
      var rows := RemoveKey(RowsOf(es, fs), row);
      OnChildrenOfSet(es, fs, kids => RemoveKey(kids, row), GROWING_FIELDSET);
      RowsAreInside(es, fs);
      ChildWritten(es, Fieldset(fs), List(rows), GROWING_FIELDSET, id);
      FoundIsChild(es, fs);
      if id.Row? || id.Leaf? {
        ChildWritten(es, Fieldset(fs), List(rows), GROWING_FIELDSET, Fieldset(id.fs));
        if id.fs == fs { ChildRemoved(RowsOf(es, fs), row, Row(fs, id.index)); }
      }
    } else if Child(es, Fieldset(fs)).Some? {
      ChildIsFound(es, Fieldset(fs));
    }
  }

  /** A growing fieldset's node is at the root. */
  lemma {:induction false} FoundIsChild(es: seq<Entry>, fs: string)
    requires Placed(es) && Find(es, Fieldset(fs)).Some?
    ensures Child(es, Fieldset(fs)).Some?
  {
    HeadAndTail(es);
    if es[0].key != Fieldset(fs) {
      if es[0].value.List? { FindAmongRows(es[0].key.fs, es[0].value.entries, Fieldset(fs)); }
      FoundIsChild(es[1..], fs);
    }
  }

  lemma RowWriteKeepsTypes(es: seq<Entry>, u: Update, id: Id)
    requires Placed(es) && u.id.Leaf?
    ensures var r := NodeOf(Write(es, u), id);
      TypeAfterWrite(es, u, id) == if r.Some? then Some(r.value.fieldType) else None
  {
    var fs, index := u.id.fs, u.id.index;
    WriteInRowIsNested(es, fs, index, u);
    RowsAreInside(es, fs);
    RowsOfPlaced(es, fs);
    LeavesAreInside(RowsOf(es, fs), fs, index);
    var before := Children(Read(RowsOf(es, fs), Row(fs, index)));
    var leaves := WriteChild(before, u.id, Flat(u.value), u.fieldType);
    var rows := WriteChild(RowsOf(es, fs), Row(fs, index), List(leaves), GROWING_FIELDSET_CHILD);
    ChildWritten(es, Fieldset(fs), List(rows), GROWING_FIELDSET, id);
    if id.Row? || id.Leaf? {
      ChildWritten(es, Fieldset(fs), List(rows), GROWING_FIELDSET, Fieldset(id.fs));
      if id.fs == fs {
        ChildWritten(RowsOf(es, fs), Row(fs, index), List(leaves), GROWING_FIELDSET_CHILD, Row(fs, id.index));
        if id.Leaf? && id.index == index { ChildWritten(before, u.id, Flat(u.value), u.fieldType, id); }
      }
    }
  }
}
