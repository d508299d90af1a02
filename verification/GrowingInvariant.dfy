/** What every render, edit and removal keeps true of a growing fieldset. */
module GrowingInvariant {
  import opened FieldIdentity
  import opened AnswerStore
  import opened Options
  import opened Texts
  import opened GrowingFieldset

  /** Answers of the set: row index to field name to text. */
  type SetValues = map<nat, LeafValues>

  /** The row belongs to the specification, and its form fields carry its own index. */
  ghost predicate RowOk(sp: SetSpec, row: RowState) {
    && |row.nodes| == |sp.leaves|
    && (row.required ==> sp.rowRequired)
    && forall j | 0 <= j < |sp.leaves| ::
      && (sp.leaves[j].isField ==> row.nodes[j].index == row.index)
      && (row.nodes[j].index == row.index || row.nodes[j].index == sp.protoIndex)
      && row.nodes[j].disabled == row.disabled
      && (row.nodes[j].required ==> sp.leaves[j].required)
  }

  ghost predicate RequiredAsPrototype(sp: SetSpec, row: RowState)
    requires |row.nodes| == |sp.leaves|
  {
    row.required == sp.rowRequired &&
    forall j | 0 <= j < |sp.leaves| :: row.nodes[j].required == sp.leaves[j].required
  }

  /** A row that waits to be filled in: nothing is required, and every id in it, of a
      heading too, carries the row's index. */
  predicate Waiting(row: RowState) {
    !row.required && forall j | 0 <= j < |row.nodes| :: !row.nodes[j].required && row.nodes[j].index == row.index
  }

  /** The first row and the rows with answers require what the prototype requires, and the
      others wait to be filled in. */
  ghost predicate FlagsOk(sp: SetSpec, rows: seq<RowState>, values: SetValues)
    requires forall a | 0 <= a < |rows| :: |rows[a].nodes| == |sp.leaves|
  {
    forall a | 0 <= a < |rows| ::
      if a == 0 || rows[a].index in values then RequiredAsPrototype(sp, rows[a]) else Waiting(rows[a])
  }

  ghost predicate Complete(sp: SetSpec, values: LeafValues) {
    forall j | 0 <= j < |sp.leaves| && sp.leaves[j].isField :: sp.leaves[j].name in values
  }

  ghost predicate Blank(values: LeafValues) {
    forall name | name in values :: values[name] == ""
  }

  ghost predicate Increasing(rows: seq<RowState>) {
    forall a, b | 0 <= a < b < |rows| :: rows[a].index < rows[b].index
  }

  ghost predicate HasRow(rows: seq<RowState>, index: nat) {
    exists a :: 0 <= a < |rows| && rows[a].index == index
  }

  /** One of the enabled rows, that is, any but the last, has the index. */
  ghost predicate HasEnabledRow(rows: seq<RowState>, index: nat) {
    exists a :: 0 <= a < |rows| - 1 && rows[a].index == index
  }

  /** At least two rows with increasing indices, and exactly the last one disabled. */
  ghost predicate RowsOk(sp: SetSpec, rows: seq<RowState>) {
    && |rows| >= 2 && Increasing(rows) && sp.protoIndex <= rows[0].index
    && forall a | 0 <= a < |rows| :: RowOk(sp, rows[a]) && (rows[a].disabled <==> a == |rows| - 1)
  }

  /** A row with answers has one for every form field, and the prototype's required flags. */
  ghost predicate AnsweredRowOk(sp: SetSpec, row: RowState, values: SetValues)
    requires |row.nodes| == |sp.leaves|
  {
    row.index in values ==> Complete(sp, values[row.index]) && RequiredAsPrototype(sp, row)
  }

  /** Answers belong to enabled rows, every enabled row but the last has them, and
      the last enabled row is blank. */
  ghost predicate AnswersOk(sp: SetSpec, rows: seq<RowState>, values: SetValues)
    requires |rows| >= 2 && forall a | 0 <= a < |rows| :: |rows[a].nodes| == |sp.leaves|
  {
    && (forall i | i in values :: HasEnabledRow(rows, i))
    && forall a | 0 <= a < |rows| - 1 :: RowAnswersOk(sp, rows[a], values, a == |rows| - 2)
  }

  /** The answers of an enabled row, which may be the last enabled one. */
  ghost predicate RowAnswersOk(sp: SetSpec, row: RowState, values: SetValues, last: bool)
    requires |row.nodes| == |sp.leaves|
  {
    AnsweredRowOk(sp, row, values) &&
    if last then row.index in values ==> Blank(values[row.index]) else row.index in values
  }

  lemma RowAnswersFrame(sp: SetSpec, row: RowState, before: SetValues, after: SetValues, last: bool)
    requires |row.nodes| == |sp.leaves| && RowAnswersOk(sp, row, before, last)
    requires row.index in after <==> row.index in before
    requires row.index in before ==> after[row.index] == before[row.index]
    ensures RowAnswersOk(sp, row, after, last)
  {
  }

  /** The growing-row invariant. */
  ghost predicate Inv(sp: SetSpec, rows: seq<RowState>, values: SetValues) {
    RowsOk(sp, rows) && AnswersOk(sp, rows, values) && FlagsOk(sp, rows, values)
  }

  /** Saved answers that a form can be rendered from without two fields sharing an id. */
  ghost predicate Renderable(sp: SetSpec, values: SetValues) {
    forall i | i in values :: sp.protoIndex <= i && Complete(sp, values[i])
  }

  // ------------------------------------------------------------- initial render

  lemma {:induction false} RenderedIndexOfEntry(es: seq<Entry>, fs: string, index: nat, name: string, protoIndex: nat)
    requires forall e | e in es :: LeafEntry(fs, index, e)
    ensures RenderedIndex(es, name, protoIndex) == if name in LeafView(es) then index else protoIndex
  {
    if es != [] {
      var front, last := es[..|es| - 1], es[|es| - 1];
      assert last in es && LeafEntry(fs, index, last);
      RenderedIndexOfEntry(front, fs, index, name, protoIndex);
      LeafViewNames(es, fs, index, name);
      LeafViewNames(front, fs, index, name);
      assert es == front + [last];
    }
  }

  lemma {:induction false} LeafViewNames(es: seq<Entry>, fs: string, index: nat, name: string)
    requires forall e | e in es :: LeafEntry(fs, index, e)
    ensures name in LeafView(es) <==> exists e :: e in es && e.key == Leaf(fs, index, name)
  {
    if es != [] {
      assert es[0] in es && LeafEntry(fs, index, es[0]);
      assert es == [es[0]] + es[1..];
      LeafViewNames(es[1..], fs, index, name);
    }
  }

  lemma {:induction false} LeafViewTexts(es: seq<Entry>, fs: string, index: nat)
    requires LeavesPlaced(fs, index, es)
    ensures Blank(LeafView(es)) <==> forall e | e in es :: IsEmptyValue(e.value)
    ensures forall e | e in es :: e.key.name in LeafView(es) && LeafView(es)[e.key.name] == e.value.text
  {
    if es != [] {
      HeadAndTail(es);
      LeafViewTexts(es[1..], fs, index);
      var rest := LeafView(es[1..]);
      assert es[0].key.name !in rest by { LeafViewNames(es[1..], fs, index, es[0].key.name); }
      assert forall name | name in rest :: LeafView(es)[name] == rest[name];
      assert LeafView(es)[es[0].key.name] == es[0].value.text;
    }
  }

  ghost predicate SortedEntries(es: seq<Entry>) {
    RowKeys(es) && forall i, j | 0 <= i < j < |es| :: es[i].key.index < es[j].key.index
  }

  lemma {:induction false} InsertElements(e: Entry, es: seq<Entry>, x: Entry)
    requires e.key.Row? && RowKeys(es)
    ensures |InsertEntry(e, es)| == |es| + 1
    ensures x in InsertEntry(e, es) <==> x == e || x in es
  {
    if es != [] && es[0].key.index < e.key.index {
      InsertElements(e, es[1..], x);
      assert es == [es[0]] + es[1..];
    }
  }

  lemma {:induction false} InsertSorts(e: Entry, es: seq<Entry>)
    requires e.key.Row? && SortedEntries(es) && forall x | x in es :: x.key.index != e.key.index
    ensures SortedEntries(InsertEntry(e, es))
  {
    if es != [] && es[0].key.index < e.key.index {
      InsertSorts(e, es[1..]);
      var r := InsertEntry(e, es[1..]);
      forall i | 0 <= i < |r| ensures es[0].key.index < r[i].key.index {
        InsertElements(e, es[1..], r[i]);
      }
    }
  }

  lemma {:induction false} SortEntriesSorts(es: seq<Entry>, fs: string)
    requires UniqueKeys(es) && RowKeys(es) && forall e | e in es :: e.key.fs == fs
    ensures SortedEntries(SortEntries(es)) && |SortEntries(es)| == |es|
    ensures forall x :: x in SortEntries(es) <==> x in es
  {
    if es != [] {
      HeadAndTail(es);
      SortEntriesSorts(es[1..], fs);
      var r := SortEntries(es[1..]);
      forall x | x in r ensures x.key.index != es[0].key.index {
        assert x.key == Row(fs, x.key.index) && es[0].key == Row(fs, es[0].key.index);
      }
      InsertSorts(es[0], r);
      forall x ensures x in SortEntries(es) <==> x in es { InsertElements(es[0], r, x); }
      InsertElements(es[0], r, es[0]);
    }
  }

  lemma {:induction false} EntryRowsAt(sp: SetSpec, es: seq<Entry>)
    requires RowKeys(es)
    ensures |EntryRows(sp, es)| == |es|
    ensures forall a | 0 <= a < |es| :: es[a] in es && EntryRows(sp, es)[a] == EntryRow(sp, es[a])
  {
    if es != [] { EntryRowsAt(sp, es[1..]); }
  }

  lemma {:induction false} RowViewOfEntry(es: seq<Entry>, fs: string, e: Entry)
    requires RowsPlaced(fs, es) && e in es
    ensures e.key.index in RowView(es) && RowView(es)[e.key.index] == LeafView(e.value.entries)
  {
    HeadAndTail(es);
    if e != es[0] {
      RowViewOfEntry(es[1..], fs, e);
      assert e.key == Row(fs, e.key.index) && es[0].key == Row(fs, es[0].key.index);
    }
  }

  lemma EntryRowOk(sp: SetSpec, setValue: seq<Entry>, e: Entry)
    requires RowsPlaced(sp.fs, setValue) && e in setValue && Renderable(sp, RowView(setValue))
    ensures var row := EntryRow(sp, e);
      RowOk(sp, row) && sp.protoIndex <= row.index && row.index in RowView(setValue)
  {
    RowViewOfEntry(setValue, sp.fs, e);
    forall j | 0 <= j < |sp.leaves|
      ensures RenderedIndex(e.value.entries, sp.leaves[j].name, sp.protoIndex) ==
        if sp.leaves[j].name in LeafView(e.value.entries) then e.key.index else sp.protoIndex
    {
      RenderedIndexOfEntry(e.value.entries, sp.fs, e.key.index, sp.leaves[j].name, sp.protoIndex);
    }
  }

  ghost predicate RenderedRow(sp: SetSpec, row: RowState) {
    RowOk(sp, row) && RequiredAsPrototype(sp, row) && !row.disabled && sp.protoIndex <= row.index
  }

  /** The rows rendered from a set's entries: one for each entry, in index order. */
  lemma EntryRowsShape(sp: SetSpec, setValue: seq<Entry>)
    requires setValue != [] && RowsPlaced(sp.fs, setValue) && Renderable(sp, RowView(setValue))
    ensures RowKeys(setValue)
    ensures var rows := AnsweredRows(sp, setValue);
      && |rows| == |setValue| && Increasing(rows)
      && (forall a | 0 <= a < |rows| :: RenderedRow(sp, rows[a]) && rows[a].index in RowView(setValue))
  {
    SortEntriesSorts(setValue, sp.fs);
    var sorted := SortEntries(setValue);
    EntryRowsAt(sp, sorted);
    var rows := EntryRows(sp, sorted);
    forall a | 0 <= a < |rows| ensures RenderedRow(sp, rows[a]) && rows[a].index in RowView(setValue) {
      EntryRowOk(sp, setValue, sorted[a]);
    }
  }

  lemma EntryRowsCover(sp: SetSpec, setValue: seq<Entry>, i: nat)
    requires setValue != [] && RowsPlaced(sp.fs, setValue) && i in RowView(setValue)
    ensures RowKeys(setValue) && HasRow(AnsweredRows(sp, setValue), i)
  {
    SortEntriesSorts(setValue, sp.fs);
    var sorted := SortEntries(setValue);
    EntryRowsAt(sp, sorted);
    RowViewKeys(sp.fs, setValue, i);
    var e :| e in setValue && e.key == Row(sp.fs, i);
    var a :| 0 <= a < |sorted| && sorted[a] == e;
    IndexedRow(EntryRows(sp, sorted), a, i);
  }

  lemma IndexedRow(rows: seq<RowState>, a: nat, i: nat)
    requires a < |rows| && rows[a].index == i
    ensures HasRow(rows, i)
  {
  }

  lemma NewRowOk(sp: SetSpec, last: nat, enable: bool)
    ensures var row := NewRow(sp, last, enable);
      RowOk(sp, row) && row.index == last + 1 && row.disabled == !enable && Waiting(row)
  {
  }

  lemma PlaceholdersRows(sp: SetSpec, rows: seq<RowState>, answered: bool)
    requires rows != [] && Increasing(rows) && forall a | 0 <= a < |rows| :: RenderedRow(sp, rows[a])
    ensures RowsOk(sp, WithPlaceholders(sp, rows, answered))
  {
    var last := rows[|rows| - 1].index;
    NewRowOk(sp, last, true);
    NewRowOk(sp, last, false);
    NewRowOk(sp, last + 1, false);
    var r := WithPlaceholders(sp, rows, answered);
    assert forall a | 0 <= a < |rows| :: r[a] == rows[a];
  }

  lemma PlaceholdersEstablish(sp: SetSpec, rows: seq<RowState>, values: SetValues, answered: bool)
    requires rows != [] && Increasing(rows) && Renderable(sp, values)
    requires forall a | 0 <= a < |rows| :: RenderedRow(sp, rows[a])
    requires forall i | i in values :: HasRow(rows, i)
    requires answered ==> forall a | 0 <= a < |rows| :: rows[a].index in values
    requires !answered ==> |rows| == 1 && (rows[0].index in values ==> Blank(values[rows[0].index]))
    ensures Inv(sp, WithPlaceholders(sp, rows, answered), values)
  {
    PlaceholdersRows(sp, rows, answered);
    var r := WithPlaceholders(sp, rows, answered);
    var n := |r|;
    assert r[..|rows|] == rows;
    forall i | i in values ensures HasEnabledRow(r, i) {
      var a :| 0 <= a < |rows| && rows[a].index == i;
      assert r[a].index == i;
    }
    if answered {
      assert !HasRow(rows, r[n - 2].index);
    }
    PlaceholdersFlags(sp, rows, values, answered);
  }

  lemma PlaceholdersFlags(sp: SetSpec, rows: seq<RowState>, values: SetValues, answered: bool)
    requires rows != [] && Increasing(rows) && forall a | 0 <= a < |rows| :: RenderedRow(sp, rows[a])
    requires forall i | i in values :: HasRow(rows, i)
    requires answered ==> forall a | 0 <= a < |rows| :: rows[a].index in values
    requires !answered ==> |rows| == 1
    ensures RowsOk(sp, WithPlaceholders(sp, rows, answered))
    ensures FlagsOk(sp, WithPlaceholders(sp, rows, answered), values)
  {
    PlaceholdersRows(sp, rows, answered);
    var r, last := WithPlaceholders(sp, rows, answered), rows[|rows| - 1].index;
    NewRowOk(sp, last, true);
    NewRowOk(sp, last, false);
    NewRowOk(sp, last + 1, false);
    forall a | 0 <= a < |r|
      ensures if a == 0 || r[a].index in values then RequiredAsPrototype(sp, r[a]) else Waiting(r[a])
    {
      if a < |rows| { assert r[a] == rows[a]; } else { BeyondRows(rows, r[a].index); }
    }
  }

  lemma BeyondRows(rows: seq<RowState>, index: nat)
    requires rows != [] && Increasing(rows) && index > rows[|rows| - 1].index
    ensures !HasRow(rows, index)
  {
  }

  /** The edit-mode render establishes the invariant, whatever the saved answers. */
  lemma InitialRenderEstablishes(sp: SetSpec, es: seq<Entry>)
    requires Placed(es) && Renderable(sp, SetView(es, sp.fs))
    ensures RowKeys(RowsOf(es, sp.fs))
    ensures Inv(sp, InitialRows(sp, RowsOf(es, sp.fs)), SetView(es, sp.fs))
  {
    RowsOfPlaced(es, sp.fs);
    var setValue, values := RowsOf(es, sp.fs), SetView(es, sp.fs);
    var rows := AnsweredRows(sp, setValue);
    if setValue != [] { EntryRowsShape(sp, setValue); }
    forall i | i in values ensures HasRow(rows, i) { EntryRowsCover(sp, setValue, i); }
    var answered := HaveAnswers(sp, rows, setValue);
    if !answered && rows[0].index in values {
      FindAmongRows(sp.fs, setValue, Row(sp.fs, rows[0].index));
      LeafViewTexts(Children(Read(setValue, Row(sp.fs, rows[0].index))), sp.fs, rows[0].index);
    }
    PlaceholdersEstablish(sp, rows, values, answered);
  }

  /** How many rows are rendered: two where at most one row has answers, and blank ones;
      else two more than there are answered rows, with the next indices. */
  lemma InitialPlaceholders(sp: SetSpec, es: seq<Entry>)
    requires Placed(es) && Renderable(sp, SetView(es, sp.fs))
    ensures RowKeys(RowsOf(es, sp.fs))
    ensures var rows, values, n := InitialRows(sp, RowsOf(es, sp.fs)), SetView(es, sp.fs), |RowsOf(es, sp.fs)|;
      && |rows| == (if n <= 1 && forall i | i in values :: Blank(values[i]) then 2 else n + 2)
      && (forall a | 0 <= a < |rows| - 1 && n <= a + 1 :: rows[a + 1].index == rows[a].index + 1)
      && (n == 0 ==> rows[0].index == sp.protoIndex)
  {
    RowsOfPlaced(es, sp.fs);
    var setValue := RowsOf(es, sp.fs);
    AnsweredRowsCount(sp, setValue, SetView(es, sp.fs));
    var rows := AnsweredRows(sp, setValue);
    AddedPlaceholders(sp, rows, HaveAnswers(sp, rows, setValue));
  }

  lemma AddedPlaceholders(sp: SetSpec, rows: seq<RowState>, answered: bool)
    requires rows != []
    ensures var r := WithPlaceholders(sp, rows, answered);
      && |r| == |rows| + (if answered then 2 else 1) && r[..|rows|] == rows
      && forall a | |rows| - 1 <= a < |r| - 1 :: r[a + 1].index == r[a].index + 1
  {
  }

  lemma AnsweredRowsCount(sp: SetSpec, setValue: seq<Entry>, values: SetValues)
    requires RowsPlaced(sp.fs, setValue) && values == RowView(setValue) && RowKeys(setValue)
    ensures var rows := AnsweredRows(sp, setValue);
      && |rows| == (if setValue == [] then 1 else |setValue|)
      && (HaveAnswers(sp, rows, setValue) <==> |setValue| > 1 || exists i :: i in values && !Blank(values[i]))
      && (setValue == [] ==> rows[0].index == sp.protoIndex)
  {
    if |setValue| == 1 {
      OneAnsweredRow(sp, setValue, values);
    } else if setValue == [] {
      assert Read(setValue, Row(sp.fs, sp.protoIndex)) == Flat("");
    }
  }

  lemma OneAnsweredRow(sp: SetSpec, setValue: seq<Entry>, values: SetValues)
    requires RowsPlaced(sp.fs, setValue) && |setValue| == 1 && values == RowView(setValue)
    ensures RowKeys(setValue) && |AnsweredRows(sp, setValue)| == 1
    ensures HaveAnswers(sp, AnsweredRows(sp, setValue), setValue) <==> exists i :: i in values && !Blank(values[i])
  {
    var e := setValue[0];
    assert e in setValue && e.key.Row?;
    var i := e.key.index;
    assert setValue[1..] == [] && RowView(setValue) == map[i := LeafView(Children(e.value))];
    FindAmongRows(sp.fs, setValue, Row(sp.fs, i));
    LeafViewTexts(Children(Read(setValue, Row(sp.fs, i))), sp.fs, i);
  }

  // --------------------------------------------------------------------- edits

  /** What a form needs: names that tell its fields apart, and a field to answer. */
  ghost predicate Usable(sp: SetSpec) {
    SpecOk(sp) && HasAnyField(sp, 0)
  }

  /** Values that read the same, where more fields may have an (empty) entry. */
  ghost predicate SameTexts(before: LeafValues, after: LeafValues) {
    (forall name | name in before :: name in after) &&
    forall name :: TextAt(after, name) == TextAt(before, name)
  }

  /** The answers changed in one row of one set only. */
  ghost predicate OnlyRowChanged(es: seq<Entry>, es2: seq<Entry>, fs: string, index: nat, values: LeafValues) {
    && Placed(es2) && PlainView(es2) == PlainView(es)
    && SetView(es2, fs) == SetView(es, fs)[index := values]
    && forall other | other != fs :: SetView(es2, other) == SetView(es, other)
  }

  lemma ChangedTwice(es: seq<Entry>, es1: seq<Entry>, es2: seq<Entry>, fs: string, index: nat, v1: LeafValues, v2: LeafValues)
    requires OnlyRowChanged(es, es1, fs, index, v1) && OnlyRowChanged(es1, es2, fs, index, v2)
    ensures OnlyRowChanged(es, es2, fs, index, v2)
  {
    assert SetView(es, fs)[index := v1][index := v2] == SetView(es, fs)[index := v2];
  }

  lemma SameTextsTwice(v1: LeafValues, v2: LeafValues, v3: LeafValues)
    requires SameTexts(v1, v2) && SameTexts(v2, v3)
    ensures SameTexts(v1, v3)
  {
  }

  lemma TouchOne(sp: SetSpec, row: RowState, es: seq<Entry>, j: nat) returns (values: LeafValues)
    requires RowOk(sp, row) && j < |sp.leaves| && sp.leaves[j].isField && Placed(es) && row.index in SetView(es, sp.fs)
    ensures var id := NodeId(sp, row, j);
      OnlyRowChanged(es, WriteInRow(es, sp.fs, Row(sp.fs, row.index), Update(id, TextOf(Read(es, id)), sp.leaves[j].fieldType)),
                     sp.fs, row.index, values)
    ensures SameTexts(SetView(es, sp.fs)[row.index], values) && sp.leaves[j].name in values
  {
    var id := NodeId(sp, row, j);
    var u := Update(id, TextOf(Read(es, id)), sp.leaves[j].fieldType);
    ReadMeans(es, id);
    WriteInRowMeans(es, u);
    assert Write(es, u) == WriteInRow(es, sp.fs, Row(sp.fs, row.index), u);
    values := SetView(es, sp.fs)[row.index][id.name := u.value];
  }

  ghost predicate Touched(sp: SetSpec, row: RowState, edited: Id, j: nat, values: LeafValues)
    requires |row.nodes| == |sp.leaves|
  {
    forall k | j <= k < |sp.leaves| && sp.leaves[k].isField && NodeId(sp, row, k) != edited :: sp.leaves[k].name in values
  }

  /** Validating the fields of a row changes nothing that can be read, and leaves
      every one of them with an entry. */
  lemma {:induction false} TouchMeans(sp: SetSpec, row: RowState, es: seq<Entry>, edited: Id, j: nat) returns (values: LeafValues)
    requires RowOk(sp, row) && j <= |sp.leaves| && Placed(es) && row.index in SetView(es, sp.fs)
    ensures OnlyRowChanged(es, Touch(sp, row, es, edited, j), sp.fs, row.index, values)
    ensures SameTexts(SetView(es, sp.fs)[row.index], values)
    ensures Touched(sp, row, edited, j, values)
    decreases |sp.leaves| - j
  {
    if j == |sp.leaves| {
      values := SetView(es, sp.fs)[row.index];
      assert SetView(es, sp.fs) == SetView(es, sp.fs)[row.index := values];
    } else if !sp.leaves[j].isField || NodeId(sp, row, j) == edited {
      values := TouchMeans(sp, row, es, edited, j + 1);
    } else {
      var id := NodeId(sp, row, j);
      var es1 := WriteInRow(es, sp.fs, Row(sp.fs, row.index), Update(id, TextOf(Read(es, id)), sp.leaves[j].fieldType));
      var v1 := TouchOne(sp, row, es, j);
      values := TouchMeans(sp, row, es1, edited, j + 1);
      ChangedTwice(es, es1, Touch(sp, row, es1, edited, j + 1), sp.fs, row.index, v1, values);
      SameTextsTwice(SetView(es, sp.fs)[row.index], v1, values);
    }
  }

  /** Only the edited row holds the edited field's id. */
  lemma FieldIsInItsRow(sp: SetSpec, rows: seq<RowState>, a: nat, b: nat, j: nat)
    requires SpecOk(sp) && RowsOk(sp, rows) && a < |rows| && b < |rows|
    requires j < |sp.leaves| && sp.leaves[j].isField
    ensures Contains(sp, rows[b], NodeId(sp, rows[a], j)) <==> a == b
  {
    if a == b { assert NodeId(sp, rows[b], j) == NodeId(sp, rows[a], j); }
    if Contains(sp, rows[b], NodeId(sp, rows[a], j)) {
      var k :| 0 <= k < |sp.leaves| && NodeId(sp, rows[b], k) == NodeId(sp, rows[a], j);
      assert k == j;
      assert rows[b].index == rows[a].index;
    }
  }

  lemma RequiredRowOk(sp: SetSpec, row: RowState)
    requires RowOk(sp, row)
    ensures var r := RequireRow(sp, row);
      RowOk(sp, r) && r.index == row.index && r.disabled == row.disabled && RequiredAsPrototype(sp, r)
  {
  }

  lemma EnabledRowOk(sp: SetSpec, row: RowState)
    requires RowOk(sp, row)
    ensures RowOk(sp, EnableRow(row)) && EnableRow(row).index == row.index && !EnableRow(row).disabled
  {
  }

  lemma GrownRowsOk(sp: SetSpec, rows: seq<RowState>, x: RowState, y: RowState, z: RowState)
    requires RowsOk(sp, rows) && RowOk(sp, x) && RowOk(sp, y) && RowOk(sp, z)
    requires x.index == rows[|rows| - 2].index && y.index == rows[|rows| - 1].index < z.index
    requires !x.disabled && !y.disabled && z.disabled
    ensures RowsOk(sp, rows[..|rows| - 2] + [x, y, z])
  {
    var r := rows[..|rows| - 2] + [x, y, z];
    assert forall b | 0 <= b < |rows| :: r[b].index == rows[b].index;
    IncreasingLonger(rows, r);
  }

  lemma IncreasingLonger(rows: seq<RowState>, r: seq<RowState>)
    requires rows != [] && Increasing(rows) && |r| == |rows| + 1 && r[|rows|].index > rows[|rows| - 1].index
    requires forall b | 0 <= b < |rows| :: r[b].index == rows[b].index
    ensures Increasing(r)
  {
  }

  lemma ExpandedRows(sp: SetSpec, rows: seq<RowState>, a: nat, j: nat)
    requires SpecOk(sp) && RowsOk(sp, rows) && a < |rows| - 1 && j < |sp.leaves| && sp.leaves[j].isField
    ensures var r := Expand(sp, rows, NodeId(sp, rows[a], j));
      && RowsOk(sp, r) && |r| == (if a == |rows| - 2 then |rows| + 1 else |rows|)
      && (forall b | 0 <= b < |rows| :: r[b].index == rows[b].index)
      && (forall b | 0 <= b < |rows| - 1 && b != a :: r[b] == rows[b])
      && (a == |rows| - 2 ==> RequiredAsPrototype(sp, r[a]) && NewLast(rows, r))
      && (a != |rows| - 2 ==> r == rows)
  {
    var n := |rows|;
    FieldIsInItsRow(sp, rows, a, n - 2, j);
    if a != n - 2 {
      assert Expand(sp, rows, NodeId(sp, rows[a], j)) == rows;
    } else {
      NewRowOk(sp, rows[n - 1].index, false);
      RequiredRowOk(sp, rows[n - 2]);
      EnabledRowOk(sp, rows[n - 1]);
      GrownRowsOk(sp, rows, RequireRow(sp, rows[n - 2]), EnableRow(rows[n - 1]), NewRow(sp, rows[n - 1].index, false));
    }
  }

  /** The row that was last is enabled and otherwise as it was; the new last one has the
      next index and waits. */
  ghost predicate NewLast(rows: seq<RowState>, r: seq<RowState>)
    requires rows != [] && |r| == |rows| + 1
  {
    var n := |rows|;
    && r[n].index == rows[n - 1].index + 1 && Waiting(r[n])
    && EnabledFrom(rows[n - 1], r[n - 1])
  }

  ghost predicate EnabledFrom(before: RowState, row: RowState) {
    && !row.disabled && row.index == before.index && row.required == before.required && |row.nodes| == |before.nodes|
    && forall j | 0 <= j < |row.nodes| :: row.nodes[j] == Node(before.nodes[j].index, before.nodes[j].required, false)
  }

  /** The answers after an edit of field j in row a: the edited field's value is written,
      and the row's other fields are validated. */
  function EditAnswers(sp: SetSpec, row: RowState, rowAfter: RowState, es: seq<Entry>, j: nat, value: string): seq<Entry>
    requires |row.nodes| == |sp.leaves| && |rowAfter.nodes| == |sp.leaves| && j < |sp.leaves|
  {
    var u := Update(NodeId(sp, row, j), value, sp.leaves[j].fieldType);
    Touch(sp, rowAfter, WriteInRow(es, sp.fs, Row(sp.fs, row.index), u), u.id, 0)
  }

  lemma EditAnswersMeans(sp: SetSpec, row: RowState, rowAfter: RowState, es: seq<Entry>, j: nat, value: string)
      returns (values: LeafValues)
    requires RowOk(sp, row) && RowOk(sp, rowAfter) && row.index == rowAfter.index
    requires j < |sp.leaves| && sp.leaves[j].isField && Placed(es)
    ensures OnlyRowChanged(es, EditAnswers(sp, row, rowAfter, es, j, value), sp.fs, row.index, values)
    ensures SameTexts(LeavesAt(SetView(es, sp.fs), row.index)[sp.leaves[j].name := value], values)
    ensures Complete(sp, values)
  {
    var u := Update(NodeId(sp, row, j), value, sp.leaves[j].fieldType);
    WriteInRowMeans(es, u);
    assert Write(es, u) == WriteInRow(es, sp.fs, Row(sp.fs, row.index), u);
    values := TouchMeans(sp, rowAfter, Write(es, u), u.id, 0);
    assert sp.leaves[j].name in values;
  }

  lemma EditedRowsCover(rows: seq<RowState>, after: seq<RowState>, a: nat, i: nat)
    requires a < |rows| - 1 && |rows| <= |after| && forall b | 0 <= b < |rows| :: after[b].index == rows[b].index
    requires HasEnabledRow(rows, i) || i == rows[a].index
    ensures HasEnabledRow(after, i)
  {
    if i == rows[a].index {
      assert after[a].index == i;
    } else {
      var b :| 0 <= b < |rows| - 1 && rows[b].index == i;
      assert after[b].index == i;
    }
  }

  lemma LastRowIsUnanswered(rows: seq<RowState>, values: SetValues)
    requires rows != [] && Increasing(rows) && forall i | i in values :: HasEnabledRow(rows, i)
    ensures rows[|rows| - 1].index !in values
  {
    assert !HasEnabledRow(rows, rows[|rows| - 1].index);
  }

  lemma EditKeepsAnswersOk(sp: SetSpec, rows: seq<RowState>, after: seq<RowState>, a: nat, values: SetValues, row: LeafValues)
    requires RowsOk(sp, rows) && RowsOk(sp, after) && AnswersOk(sp, rows, values)
    requires a < |rows| - 1 && |after| == (if a == |rows| - 2 then |rows| + 1 else |rows|)
    requires forall b | 0 <= b < |rows| :: after[b].index == rows[b].index
    requires forall b | 0 <= b < |rows| - 1 && b != a :: after[b] == rows[b]
    requires RequiredAsPrototype(sp, after[a]) && Complete(sp, row)
    ensures AnswersOk(sp, after, values[rows[a].index := row])
  {
    var n, v := |rows|, values[rows[a].index := row];
    forall i | i in v ensures HasEnabledRow(after, i) { EditedRowsCover(rows, after, a, i); }
    forall b | 0 <= b < |after| - 1 ensures RowAnswersOk(sp, after[b], v, b == |after| - 2) {
      if b == n - 1 {
        LastRowIsUnanswered(rows, values);
      } else if b != a {
        RowAnswersFrame(sp, rows[b], values, v, b == n - 2);
      }
    }
  }

  lemma EditKeepsFlags(sp: SetSpec, rows: seq<RowState>, after: seq<RowState>, a: nat, values: SetValues, row: LeafValues)
    requires RowsOk(sp, rows) && RowsOk(sp, after) && AnswersOk(sp, rows, values) && FlagsOk(sp, rows, values)
    requires a < |rows| - 1 && |after| == (if a == |rows| - 2 then |rows| + 1 else |rows|)
    requires forall b | 0 <= b < |rows| :: after[b].index == rows[b].index
    requires forall b | 0 <= b < |rows| - 1 && b != a :: after[b] == rows[b]
    requires RequiredAsPrototype(sp, after[a])
    requires if a == |rows| - 2 then NewLast(rows, after) else after == rows
    ensures FlagsOk(sp, after, values[rows[a].index := row])
  {
    var n, v := |rows|, values[rows[a].index := row];
    LastRowIsUnanswered(rows, values);
    forall b | 0 <= b < |after|
      ensures if b == 0 || after[b].index in v then RequiredAsPrototype(sp, after[b]) else Waiting(after[b])
    {
      if b == n { NotAnsweredBeyond(rows, values, after[n].index); }
    }
  }

  lemma NotAnsweredBeyond(rows: seq<RowState>, values: SetValues, index: nat)
    requires rows != [] && Increasing(rows) && index > rows[|rows| - 1].index
    requires forall i | i in values :: HasEnabledRow(rows, i)
    ensures index !in values
  {
    BeyondRows(rows, index);
  }

  lemma ReadsAfterRowChange(es: seq<Entry>, es2: seq<Entry>, fs: string, index: nat, name: string, value: string, values: LeafValues, id: Id)
    requires Placed(es) && OnlyRowChanged(es, es2, fs, index, values) && IsField(id)
    requires SameTexts(LeavesAt(SetView(es, fs), index)[name := value], values)
    ensures Read(es2, id) == if id == Leaf(fs, index, name) then Flat(value) else Read(es, id)
  {
    ReadMeans(es, id);
    ReadMeans(es2, id);
    if id.Leaf? && id.fs == fs && id.index == index {
      assert TextAt(values, id.name) == TextAt(LeavesAt(SetView(es, fs), index)[name := value], id.name);
    }
  }

  /** An edit keeps the invariant; the field reads the new value, and every other field
      of the form reads as before. */
  lemma EditKeepsInvariant(sp: SetSpec, rows: seq<RowState>, es: seq<Entry>, a: nat, j: nat, value: string)
    requires SpecOk(sp) && Placed(es) && Inv(sp, rows, SetView(es, sp.fs))
    requires a < |rows| - 1 && j < |sp.leaves| && sp.leaves[j].isField
    ensures var id := NodeId(sp, rows[a], j);
      var after := Expand(sp, rows, id);
      && a < |after| && RowsOk(sp, after)
      && var es2 := EditAnswers(sp, rows[a], after[a], es, j, value);
      && Placed(es2) && Inv(sp, after, SetView(es2, sp.fs))
      && (forall other | other != sp.fs :: SetView(es2, other) == SetView(es, other))
      && (forall other | IsField(other) ::
           Read(es2, other) == if other == id then Flat(value) else Read(es, other))
  {
    var id := NodeId(sp, rows[a], j);
    ExpandedRows(sp, rows, a, j);
    var after := Expand(sp, rows, id);
    var es2 := EditAnswers(sp, rows[a], after[a], es, j, value);
    var row := EditAnswersMeans(sp, rows[a], after[a], es, j, value);
    assert a < |rows| - 2 ==> RowAnswersOk(sp, rows[a], SetView(es, sp.fs), false);
    EditKeepsAnswersOk(sp, rows, after, a, SetView(es, sp.fs), row);
    EditKeepsFlags(sp, rows, after, a, SetView(es, sp.fs), row);
    forall other | IsField(other)
      ensures Read(es2, other) == if other == id then Flat(value) else Read(es, other)
    {
      ReadsAfterRowChange(es, es2, sp.fs, rows[a].index, sp.leaves[j].name, value, row, other);
    }
  }

  // ------------------------------------------------------------------- removals

  lemma {:induction false} RemoveRowsNone(rows: seq<RowState>, index: nat)
    requires forall b | 0 <= b < |rows| :: rows[b].index != index
    ensures RemoveRows(rows, index) == rows
  {
    if rows != [] { RemoveRowsNone(rows[1..], index); }
  }

  lemma {:induction false} RemoveRowsAt(rows: seq<RowState>, a: nat)
    requires a < |rows| && Increasing(rows)
    ensures RemoveRows(rows, rows[a].index) == rows[..a] + rows[a + 1..]
  {
    if a == 0 {
      RemoveRowsNone(rows[1..], rows[0].index);
    } else {
      assert rows[1..][a - 1] == rows[a];
      RemoveRowsAt(rows[1..], a - 1);
      assert rows[..a] == [rows[0]] + rows[1..][..a - 1];
    }
  }

  lemma {:induction false} SortRowsKeepsOrder(rows: seq<RowState>)
    requires Increasing(rows)
    ensures SortRows(rows) == rows
  {
    if rows != [] { SortRowsKeepsOrder(rows[1..]); }
  }

  /** A form field of the row prototype at or after position j has the name. */
  ghost predicate HasField(sp: SetSpec, j: nat, name: string) {
    exists k :: j <= k < |sp.leaves| && sp.leaves[k].isField && sp.leaves[k].name == name
  }

  ghost predicate HasAnyField(sp: SetSpec, j: nat) {
    exists k :: j <= k < |sp.leaves| && sp.leaves[k].isField
  }

  ghost predicate Moved(sp: SetSpec, from: LeafValues, base: LeafValues, to: LeafValues, j: nat) {
    && (forall name | name in base :: name in to)
    && (forall k | j <= k < |sp.leaves| && sp.leaves[k].isField :: sp.leaves[k].name in to)
    && forall name :: TextAt(to, name) == if HasField(sp, j, name) then TextAt(from, name) else TextAt(base, name)
  }

  /** Writing what a row's fields read to the prototype's ids. */
  lemma {:induction false} MovedAnswersMeans(sp: SetSpec, row: RowState, src: seq<Entry>, es: seq<Entry>, j: nat)
      returns (values: LeafValues)
    requires SpecOk(sp) && RowOk(sp, row) && j <= |sp.leaves| && Placed(src) && Placed(es)
    requires HasAnyField(sp, j) || sp.protoIndex in SetView(es, sp.fs)
    ensures forall u | u in MovedAnswers(sp, row, src, j) :: u.id.Leaf?
    ensures OnlyRowChanged(es, WriteAll(es, MovedAnswers(sp, row, src, j)), sp.fs, sp.protoIndex, values)
    ensures Moved(sp, LeavesAt(SetView(src, sp.fs), row.index), LeavesAt(SetView(es, sp.fs), sp.protoIndex), values, j)
    decreases |sp.leaves| - j
  {
    var p := sp.protoIndex;
    if j == |sp.leaves| {
      values := SetView(es, sp.fs)[p];
      assert SetView(es, sp.fs) == SetView(es, sp.fs)[p := values];
    } else if !sp.leaves[j].isField {
      values := MovedAnswersMeans(sp, row, src, es, j + 1);
      assert forall name :: HasField(sp, j, name) <==> HasField(sp, j + 1, name);
    } else {
      var u := Update(Leaf(sp.fs, p, sp.leaves[j].name), TextOf(Read(src, NodeId(sp, row, j))), sp.leaves[j].fieldType);
      var es1 := Write(es, u);
      var v1 := MovedOne(sp, row, src, es, j);
      values := MovedAnswersMeans(sp, row, src, es1, j + 1);
      MovedFirst(sp, row, src, es, j);
      ChangedTwice(es, es1, WriteAll(es1, MovedAnswers(sp, row, src, j + 1)), sp.fs, p, v1, values);
      MovedStep(sp, LeavesAt(SetView(src, sp.fs), row.index), LeavesAt(SetView(es, sp.fs), p), values, j);
    }
  }

  lemma MovedFirst(sp: SetSpec, row: RowState, src: seq<Entry>, es: seq<Entry>, j: nat)
    requires RowOk(sp, row) && j < |sp.leaves| && sp.leaves[j].isField
    requires forall u | u in MovedAnswers(sp, row, src, j + 1) :: u.id.Leaf?
    ensures forall u | u in MovedAnswers(sp, row, src, j) :: u.id.Leaf?
    ensures var u := Update(Leaf(sp.fs, sp.protoIndex, sp.leaves[j].name), TextOf(Read(src, NodeId(sp, row, j))), sp.leaves[j].fieldType);
      WriteAll(es, MovedAnswers(sp, row, src, j)) == WriteAll(Write(es, u), MovedAnswers(sp, row, src, j + 1))
  {
  }

  /** The first of them. */
  lemma MovedOne(sp: SetSpec, row: RowState, src: seq<Entry>, es: seq<Entry>, j: nat) returns (v1: LeafValues)
    requires SpecOk(sp) && RowOk(sp, row) && j < |sp.leaves| && sp.leaves[j].isField && Placed(src) && Placed(es)
    ensures var name := sp.leaves[j].name;
      && v1 == LeavesAt(SetView(es, sp.fs), sp.protoIndex)[name := TextAt(LeavesAt(SetView(src, sp.fs), row.index), name)]
      && var u := Update(Leaf(sp.fs, sp.protoIndex, name), TextOf(Read(src, NodeId(sp, row, j))), sp.leaves[j].fieldType);
      OnlyRowChanged(es, Write(es, u), sp.fs, sp.protoIndex, v1)
  {
    var name := sp.leaves[j].name;
    var u := Update(Leaf(sp.fs, sp.protoIndex, name), TextOf(Read(src, NodeId(sp, row, j))), sp.leaves[j].fieldType);
    ReadMeans(src, NodeId(sp, row, j));
    WriteInRowMeans(es, u);
    v1 := LeavesAt(SetView(es, sp.fs), sp.protoIndex)[name := u.value];
  }

  lemma MovedStep(sp: SetSpec, from: LeafValues, base: LeafValues, to: LeafValues, j: nat)
    requires SpecOk(sp) && j < |sp.leaves| && sp.leaves[j].isField
    requires Moved(sp, from, base[sp.leaves[j].name := TextAt(from, sp.leaves[j].name)], to, j + 1)
    ensures Moved(sp, from, base, to, j)
  {
    var name := sp.leaves[j].name;
    assert name in base[name := TextAt(from, name)];
    forall other
      ensures TextAt(to, other) == if HasField(sp, j, other) then TextAt(from, other) else TextAt(base, other)
    {
      assert HasField(sp, j, other) <==> other == name || HasField(sp, j + 1, other);
    }
  }

  /** The answers after the first row has been moved to the prototype's index. */
  function FirstRowAnswers(sp: SetSpec, first: RowState, es: seq<Entry>): seq<Entry>
    requires |first.nodes| == |sp.leaves| && forall u | u in MovedAnswers(sp, first, es, 0) :: u.id.Leaf?
  {
    var cleared := DeleteRow(es, sp.fs, Row(sp.fs, first.index));
    Touch(sp, AsPrototype(sp, first), WriteAll(cleared, MovedAnswers(sp, first, es, 0)), Fieldset(sp.fs), 0)
  }

  lemma {:induction false} MovedAnswersAreLeaves(sp: SetSpec, row: RowState, es: seq<Entry>, j: nat)
    requires |row.nodes| == |sp.leaves| && j <= |sp.leaves|
    ensures forall u | u in MovedAnswers(sp, row, es, j) :: u.id.Leaf? && u.id.fs == sp.fs
    decreases |sp.leaves| - j
  {
    if j < |sp.leaves| { MovedAnswersAreLeaves(sp, row, es, j + 1); }
  }

  /** Values of a row that read as another's, for the fields of the form. */
  ghost predicate MovedTexts(sp: SetSpec, from: LeafValues, to: LeafValues) {
    && Complete(sp, to)
    && forall name :: TextAt(to, name) == if HasField(sp, 0, name) then TextAt(from, name) else ""
  }

  lemma FirstRowAnswersMean(sp: SetSpec, first: RowState, es: seq<Entry>) returns (values: LeafValues)
    requires SpecOk(sp) && HasAnyField(sp, 0) && RowOk(sp, first) && Placed(es)
    requires first.index != sp.protoIndex ==> sp.protoIndex !in SetView(es, sp.fs)
    ensures forall u | u in MovedAnswers(sp, first, es, 0) :: u.id.Leaf?
    ensures var es2 := FirstRowAnswers(sp, first, es);
      && Placed(es2) && PlainView(es2) == PlainView(es)
      && SetView(es2, sp.fs) == (SetView(es, sp.fs) - {first.index})[sp.protoIndex := values]
      && forall other | other != sp.fs :: SetView(es2, other) == SetView(es, other)
    ensures MovedTexts(sp, LeavesAt(SetView(es, sp.fs), first.index), values)
  {
    MovedAnswersAreLeaves(sp, first, es, 0);
    DeleteRowMeans(es, sp.fs, first.index);
    var cleared := DeleteRow(es, sp.fs, Row(sp.fs, first.index));
    var v1 := MovedAnswersMeans(sp, first, es, cleared, 0);
    var written := WriteAll(cleared, MovedAnswers(sp, first, es, 0));
    values := TouchMeans(sp, AsPrototype(sp, first), written, Fieldset(sp.fs), 0);
    ChangedTwice(cleared, written, Touch(sp, AsPrototype(sp, first), written, Fieldset(sp.fs), 0), sp.fs, sp.protoIndex, v1, values);
    assert LeavesAt(SetView(cleared, sp.fs), sp.protoIndex) == map[];
  }

  /** The rows after the first one has taken the prototype's ids. */
  function FirstRowRows(sp: SetSpec, rows: seq<RowState>): seq<RowState>
    requires rows != [] && |rows[0].nodes| == |sp.leaves|
  {
    SortRows([AsPrototype(sp, rows[0])] + rows[1..])
  }

  lemma FirstRowRowsOk(sp: SetSpec, rows: seq<RowState>)
    requires RowsOk(sp, rows)
    ensures var r := FirstRowRows(sp, rows);
      && r == [AsPrototype(sp, rows[0])] + rows[1..]
      && RowsOk(sp, r) && RequiredAsPrototype(sp, r[0])
  {
    SortRowsKeepsOrder([AsPrototype(sp, rows[0])] + rows[1..]);
  }

  /** Where the row that comes to position b stood before row a was removed. */
  function Before(a: nat, b: nat): nat {
    if b < a then b else b + 1
  }

  lemma RemovedRowsShape(sp: SetSpec, rows: seq<RowState>, a: nat)
    requires RowsOk(sp, rows) && a < |rows| - 2
    ensures var r := RemoveRows(rows, rows[a].index);
      && r == rows[..a] + rows[a + 1..] && |r| == |rows| - 1 && RowsOk(sp, r)
      && forall b | 0 <= b < |r| :: r[b] == rows[Before(a, b)]
  {
    RemoveRowsAt(rows, a);
    var r := rows[..a] + rows[a + 1..];
    assert forall b | 0 <= b < |r| :: r[b] == rows[Before(a, b)];
  }

  lemma EnabledRowLeft(rows: seq<RowState>, r: seq<RowState>, a: nat, i: nat)
    requires a < |rows| && |r| == |rows| - 1 && forall b | 0 <= b < |r| :: r[b] == rows[Before(a, b)]
    requires HasEnabledRow(rows, i) && i != rows[a].index && a < |rows| - 1
    ensures HasEnabledRow(r, i)
  {
    var b :| 0 <= b < |rows| - 1 && rows[b].index == i;
    var c := if b < a then b else b - 1;
    assert Before(a, c) == b && r[c].index == i;
  }

  lemma RemovedRowAnswers(sp: SetSpec, rows: seq<RowState>, a: nat, b: nat, values: SetValues)
    requires Inv(sp, rows, values) && a < |rows| - 2 && b < |rows| - 2
    ensures RowAnswersOk(sp, rows[Before(a, b)], values - {rows[a].index}, b == |rows| - 3)
  {
    var row := rows[Before(a, b)];
    assert row.index != rows[a].index;
    RowAnswersFrame(sp, row, values, values - {rows[a].index}, b == |rows| - 3);
  }

  lemma RemovedRowsOk(sp: SetSpec, rows: seq<RowState>, a: nat, values: SetValues)
    requires Inv(sp, rows, values) && a < |rows| - 2
    ensures var r, v := RemoveRows(rows, rows[a].index), values - {rows[a].index};
      RowsOk(sp, r) && AnswersOk(sp, r, v) && TailFlagsOk(sp, r, v)
  {
    RemovedRowsShape(sp, rows, a);
    var r, n := RemoveRows(rows, rows[a].index), |rows|;
    var v := values - {rows[a].index};
    forall i | i in v ensures HasEnabledRow(r, i) { EnabledRowLeft(rows, r, a, i); }
    forall b | 0 <= b < n - 2 ensures RowAnswersOk(sp, r[b], v, b == n - 3) { RemovedRowAnswers(sp, rows, a, b, values); }
    RemovedRowFlags(sp, rows, r, a, values);
  }

  /** As FlagsOk, but for the first row, which is still to become the prototype's. */
  ghost predicate TailFlagsOk(sp: SetSpec, rows: seq<RowState>, values: SetValues)
    requires forall a | 0 <= a < |rows| :: |rows[a].nodes| == |sp.leaves|
  {
    forall a | 0 < a < |rows| ::
      if rows[a].index in values then RequiredAsPrototype(sp, rows[a]) else Waiting(rows[a])
  }

  lemma RemovedRowFlags(sp: SetSpec, rows: seq<RowState>, r: seq<RowState>, a: nat, values: SetValues)
    requires RowsOk(sp, rows) && FlagsOk(sp, rows, values) && a < |rows| - 2
    requires RowsOk(sp, r) && |r| == |rows| - 1 && forall b | 0 <= b < |r| :: r[b] == rows[Before(a, b)]
    ensures TailFlagsOk(sp, r, values - {rows[a].index})
  {
    forall b | 0 < b < |r|
      ensures if r[b].index in values - {rows[a].index} then RequiredAsPrototype(sp, r[b]) else Waiting(r[b])
    {
      assert rows[Before(a, b)].index != rows[a].index;
    }
  }

  lemma FirstRowFree(sp: SetSpec, rows: seq<RowState>, values: SetValues)
    requires RowsOk(sp, rows) && AnswersOk(sp, rows, values)
    ensures rows[0].index != sp.protoIndex ==> sp.protoIndex !in values
  {
    if sp.protoIndex in values {
      assert HasEnabledRow(rows, sp.protoIndex);
    }
  }

  lemma MovedBlank(sp: SetSpec, from: LeafValues, to: LeafValues)
    requires MovedTexts(sp, from, to) && Blank(from)
    ensures Blank(to)
  {
    forall name | name in to ensures to[name] == "" {
      assert TextAt(to, name) == to[name];
    }
  }

  lemma FirstRowCovers(rows: seq<RowState>, r: seq<RowState>, i: nat)
    requires |r| == |rows| && forall b | 0 < b < |rows| :: r[b] == rows[b]
    requires HasEnabledRow(rows, i) && i != rows[0].index
    ensures HasEnabledRow(r, i)
  {
    var b :| 0 <= b < |rows| - 1 && rows[b].index == i;
    assert r[b].index == i;
  }

  lemma FirstRowKeepsAnswersOk(sp: SetSpec, rows: seq<RowState>, r: seq<RowState>, values: SetValues, first: LeafValues)
    requires RowsOk(sp, rows) && AnswersOk(sp, rows, values) && RowsOk(sp, r)
    requires |r| == |rows| && r[0].index == sp.protoIndex && RequiredAsPrototype(sp, r[0])
    requires forall b | 0 < b < |rows| :: r[b] == rows[b]
    requires MovedTexts(sp, LeavesAt(values, rows[0].index), first)
    ensures AnswersOk(sp, r, (values - {rows[0].index})[sp.protoIndex := first])
  {
    var v := (values - {rows[0].index})[sp.protoIndex := first];
    forall i | i in v ensures HasEnabledRow(r, i) {
      if i == sp.protoIndex { assert r[0].index == i; } else { FirstRowCovers(rows, r, i); }
    }
    forall b | 0 < b < |rows| - 1 ensures RowAnswersOk(sp, r[b], v, b == |rows| - 2) {
      assert sp.protoIndex <= rows[0].index < rows[b].index;
      RowAnswersFrame(sp, rows[b], values, v, b == |rows| - 2);
    }
    if |rows| == 2 { MovedBlank(sp, LeavesAt(values, rows[0].index), first); }
    assert RowAnswersOk(sp, r[0], v, |rows| == 2);
  }

  lemma FirstRowKeepsFlags(sp: SetSpec, rows: seq<RowState>, r: seq<RowState>, values: SetValues, first: LeafValues)
    requires RowsOk(sp, rows) && RowsOk(sp, r) && TailFlagsOk(sp, rows, values)
    requires |r| == |rows| && r[0].index == sp.protoIndex && RequiredAsPrototype(sp, r[0])
    requires forall b | 0 < b < |rows| :: r[b] == rows[b]
    ensures FlagsOk(sp, r, (values - {rows[0].index})[sp.protoIndex := first])
  {
    var v := (values - {rows[0].index})[sp.protoIndex := first];
    forall b | 0 < b < |r| ensures r[b].index in v <==> rows[b].index in values {
      assert sp.protoIndex <= rows[0].index < rows[b].index;
    }
  }

  lemma FirstRowAnswersOk(sp: SetSpec, rows: seq<RowState>, values: SetValues, first: LeafValues)
    requires RowsOk(sp, rows) && AnswersOk(sp, rows, values) && TailFlagsOk(sp, rows, values)
    requires MovedTexts(sp, LeavesAt(values, rows[0].index), first)
    ensures Inv(sp, FirstRowRows(sp, rows), (values - {rows[0].index})[sp.protoIndex := first])
  {
    FirstRowRowsOk(sp, rows);
    FirstRowKeepsAnswersOk(sp, rows, FirstRowRows(sp, rows), values, first);
    FirstRowKeepsFlags(sp, rows, FirstRowRows(sp, rows), values, first);
  }

  /** The answers after row a was removed and the first row left was renumbered. */
  function RemovalAnswers(sp: SetSpec, rows: seq<RowState>, es: seq<Entry>, a: nat): seq<Entry>
    requires a < |rows| && var left := RemoveRows(rows, rows[a].index); left != [] && |left[0].nodes| == |sp.leaves|
  {
    var deleted := DeleteRow(es, sp.fs, Row(sp.fs, rows[a].index));
    var first := RemoveRows(rows, rows[a].index)[0];
    MovedAnswersAreLeaves(sp, first, deleted, 0);
    FirstRowAnswers(sp, first, deleted)
  }

  /** The row that comes first when row a is gone. */
  function FirstLeft(rows: seq<RowState>, a: nat): RowState
    requires a < |rows| - 2
  {
    rows[if a == 0 then 1 else 0]
  }

  /** What a field of the form reads after row a has been removed. */
  function ReadAfterRemoval(sp: SetSpec, rows: seq<RowState>, es: seq<Entry>, a: nat, id: Id): Value
    requires a < |rows| - 2
  {
    if !id.Leaf? || id.fs != sp.fs then Read(es, id)
    else if id.index == sp.protoIndex then
      if exists k :: 0 <= k < |sp.leaves| && sp.leaves[k].isField && sp.leaves[k].name == id.name
      then Read(es, Leaf(sp.fs, FirstLeft(rows, a).index, id.name)) else Flat("")
    else if id.index == rows[a].index || id.index == FirstLeft(rows, a).index then Flat("")
    else Read(es, id)
  }

  /** A removal keeps the invariant. The first row left takes the prototype's index and
      its answers with it; the removed row and the old ids of a renumbered row read
      empty; every other field reads as before. */
  lemma RemovalKeepsInvariant(sp: SetSpec, rows: seq<RowState>, es: seq<Entry>, a: nat)
    requires Usable(sp) && Placed(es) && Inv(sp, rows, SetView(es, sp.fs)) && a < |rows| - 2
    ensures var left := RemoveRows(rows, rows[a].index);
      && left == rows[..a] + rows[a + 1..]
      && var after := FirstRowRows(sp, left);
      && after == [AsPrototype(sp, FirstLeft(rows, a))] + left[1..]
      && var es2 := RemovalAnswers(sp, rows, es, a);
      && Placed(es2) && Inv(sp, after, SetView(es2, sp.fs))
      && (forall other | other != sp.fs :: SetView(es2, other) == SetView(es, other))
      && (forall id | IsField(id) :: Read(es2, id) == ReadAfterRemoval(sp, rows, es, a, id))
  {
    var values := SetView(es, sp.fs);
    RemovedRowsShape(sp, rows, a);
    var left := RemoveRows(rows, rows[a].index);
    var first := RemovalViews(sp, rows, es, a);
    FirstRowRowsOk(sp, left);
    RemovedRowsOk(sp, rows, a, values);
    FirstRowAnswersOk(sp, left, values - {rows[a].index}, first);
    var es2 := RemovalAnswers(sp, rows, es, a);
    forall id | IsField(id) ensures Read(es2, id) == ReadAfterRemoval(sp, rows, es, a, id) {
      RemovalReads(sp, rows, es, es2, a, first, id);
    }
  }

  /** The answers after a removal, set by set; `first` is what the first row left has. */
  lemma RemovalViews(sp: SetSpec, rows: seq<RowState>, es: seq<Entry>, a: nat) returns (first: LeafValues)
    requires Usable(sp) && Placed(es) && Inv(sp, rows, SetView(es, sp.fs)) && a < |rows| - 2
    ensures RemoveRows(rows, rows[a].index) == rows[..a] + rows[a + 1..]
    ensures RemoveRows(rows, rows[a].index)[0] == FirstLeft(rows, a) && |FirstLeft(rows, a).nodes| == |sp.leaves|
    ensures var es2 := RemovalAnswers(sp, rows, es, a);
      && Placed(es2) && PlainView(es2) == PlainView(es)
      && SetView(es2, sp.fs) ==
           (SetView(es, sp.fs) - {rows[a].index} - {FirstLeft(rows, a).index})[sp.protoIndex := first]
      && forall other | other != sp.fs :: SetView(es2, other) == SetView(es, other)
    ensures MovedTexts(sp, LeavesAt(SetView(es, sp.fs) - {rows[a].index}, FirstLeft(rows, a).index), first)
  {
    RemovedRowsShape(sp, rows, a);
    RemovedRowsOk(sp, rows, a, SetView(es, sp.fs));
    var left := RemoveRows(rows, rows[a].index);
    DeleteRowMeans(es, sp.fs, rows[a].index);
    var deleted := DeleteRow(es, sp.fs, Row(sp.fs, rows[a].index));
    FirstRowFree(sp, left, SetView(deleted, sp.fs));
    first := FirstRowAnswersMean(sp, left[0], deleted);
  }

  lemma RemovalReads(sp: SetSpec, rows: seq<RowState>, es: seq<Entry>, es2: seq<Entry>, a: nat, first: LeafValues, id: Id)
    requires RowsOk(sp, rows) && a < |rows| - 2 && Placed(es) && Placed(es2) && IsField(id)
    requires PlainView(es2) == PlainView(es)
    requires SetView(es2, sp.fs) ==
      (SetView(es, sp.fs) - {rows[a].index} - {FirstLeft(rows, a).index})[sp.protoIndex := first]
    requires forall other | other != sp.fs :: SetView(es2, other) == SetView(es, other)
    requires MovedTexts(sp, LeavesAt(SetView(es, sp.fs) - {rows[a].index}, FirstLeft(rows, a).index), first)
    ensures Read(es2, id) == ReadAfterRemoval(sp, rows, es, a, id)
  {
    ReadMeans(es2, id);
    ReadMeans(es, id);
    if id.Leaf? && id.fs == sp.fs && id.index == sp.protoIndex {
      ReadMeans(es, Leaf(sp.fs, FirstLeft(rows, a).index, id.name));
      assert TextAt(first, id.name) == if HasField(sp, 0, id.name)
        then TextAt(LeavesAt(SetView(es, sp.fs) - {rows[a].index}, FirstLeft(rows, a).index), id.name) else "";
    }
  }

  /** The rows after a removal. */
  lemma RowsAfterRemoval(sp: SetSpec, rows: seq<RowState>, a: nat)
    requires RowsOk(sp, rows) && a < |rows| - 2
    ensures var left := RemoveRows(rows, rows[a].index);
      && left != [] && |left[0].nodes| == |sp.leaves|
      && var after := FirstRowRows(sp, left);
      && |after| == |rows| - 1 && RowsOk(sp, after)
      && after[0] == AsPrototype(sp, FirstLeft(rows, a))
      && forall b | 0 < b < |after| :: after[b] == rows[Before(a, b)]
  {
    RemovedRowsShape(sp, rows, a);
    FirstRowRowsOk(sp, RemoveRows(rows, rows[a].index));
  }

  lemma ReadOfRemoval(sp: SetSpec, rows: seq<RowState>, es: seq<Entry>, a: nat, id: Id)
    requires Usable(sp) && Placed(es) && Inv(sp, rows, SetView(es, sp.fs)) && a < |rows| - 2 && IsField(id)
    ensures RemoveRows(rows, rows[a].index) != []
    ensures |RemoveRows(rows, rows[a].index)[0].nodes| == |sp.leaves|
    ensures Read(RemovalAnswers(sp, rows, es, a), id) == ReadAfterRemoval(sp, rows, es, a, id)
  {
    RemovalKeepsInvariant(sp, rows, es, a);
  }

  /** Every row that survives a removal still holds, at its current ids, what it held
      before, whichever rows were renumbered. */
  lemma RemovalConservesAnswers(sp: SetSpec, rows: seq<RowState>, es: seq<Entry>, a: nat, b: nat, k: nat)
    requires Usable(sp) && Placed(es) && Inv(sp, rows, SetView(es, sp.fs)) && a < |rows| - 2
    requires b < |rows| - 1 && k < |sp.leaves| && sp.leaves[k].isField
    ensures RemoveRows(rows, rows[a].index) != []
    ensures |RemoveRows(rows, rows[a].index)[0].nodes| == |sp.leaves|
    ensures var after := FirstRowRows(sp, RemoveRows(rows, rows[a].index));
      && b < |after| && |after[b].nodes| == |sp.leaves|
      && Read(RemovalAnswers(sp, rows, es, a), NodeId(sp, after[b], k)) == Read(es, NodeId(sp, rows[Before(a, b)], k))
  {
    RowsAfterRemoval(sp, rows, a);
    var after := FirstRowRows(sp, RemoveRows(rows, rows[a].index));
    ReadOfRemoval(sp, rows, es, a, NodeId(sp, after[b], k));
    var c := Before(a, b);
    assert RowOk(sp, rows[c]) && rows[c].nodes[k].index == rows[c].index;
    if b == 0 {
      assert rows[c] == FirstLeft(rows, a);
    } else {
      assert after[b] == rows[c];
      assert rows[c].index != sp.protoIndex && rows[c].index != rows[a].index && rows[c].index != FirstLeft(rows, a).index;
    }
  }

  // --------------------------------------------------------------------- reload

  /** Rows with the same ids (of rows and form fields) and the same flags. */
  ghost predicate SameRow(sp: SetSpec, r1: RowState, r2: RowState) {
    && |r1.nodes| == |r2.nodes| == |sp.leaves|
    && r1.index == r2.index && r1.required == r2.required && r1.disabled == r2.disabled
    && forall j | 0 <= j < |sp.leaves| ::
      && r1.nodes[j].required == r2.nodes[j].required && r1.nodes[j].disabled == r2.nodes[j].disabled
      && (sp.leaves[j].isField ==> r1.nodes[j].index == r2.nodes[j].index)
  }

  /** Increasing rows are determined by the set of their indices. */
  lemma {:induction false} SameIndices(xs: seq<RowState>, ys: seq<RowState>)
    requires Increasing(xs) && Increasing(ys)
    requires forall i :: HasRow(xs, i) <==> HasRow(ys, i)
    ensures |xs| == |ys| && forall a | 0 <= a < |xs| :: xs[a].index == ys[a].index
  {
    if xs == [] || ys == [] {
      if xs != [] { assert HasRow(xs, xs[0].index); }
      if ys != [] { assert HasRow(ys, ys[0].index); }
    } else {
      FirstIsLeast(xs, ys);
      FirstIsLeast(ys, xs);
      forall i ensures HasRow(xs[1..], i) <==> HasRow(ys[1..], i) {
        RowInTail(xs, i);
        RowInTail(ys, i);
      }
      SameIndices(xs[1..], ys[1..]);
      assert forall a | 0 < a < |xs| :: xs[a] == xs[1..][a - 1];
      assert forall a | 0 < a < |ys| :: ys[a] == ys[1..][a - 1];
    }
  }

  lemma FirstIsLeast(xs: seq<RowState>, ys: seq<RowState>)
    requires xs != [] && ys != [] && Increasing(ys) && forall i :: HasRow(xs, i) ==> HasRow(ys, i)
    ensures ys[0].index <= xs[0].index
  {
    assert HasRow(xs, xs[0].index);
  }

  lemma RowInTail(xs: seq<RowState>, i: nat)
    requires xs != [] && Increasing(xs)
    ensures HasRow(xs[1..], i) <==> HasRow(xs, i) && i != xs[0].index
  {
    if HasRow(xs[1..], i) {
      var a :| 0 <= a < |xs[1..]| && xs[1..][a].index == i;
      assert xs[a + 1].index == i;
    }
    if HasRow(xs, i) && i != xs[0].index {
      var a :| 0 <= a < |xs| && xs[a].index == i;
      assert xs[1..][a - 1].index == i;
    }
  }

  /** How many rows have answers: every enabled one, except perhaps the last. */
  ghost function AnsweredCount(rows: seq<RowState>, values: SetValues): nat
    requires |rows| >= 2
  {
    if rows[|rows| - 2].index in values then |rows| - 1 else |rows| - 2
  }

  lemma AnsweredPrefix(sp: SetSpec, rows: seq<RowState>, values: SetValues, i: nat)
    requires Inv(sp, rows, values)
    ensures HasRow(rows[..AnsweredCount(rows, values)], i) <==> i in values
  {
    var k := AnsweredCount(rows, values);
    if i in values {
      var a :| 0 <= a < |rows| - 1 && rows[a].index == i;
      assert rows[..k][a].index == i;
    }
  }

  /** Rendering the specification from the answers of a run gives back, in order, every
      row that has answers, with the same ids and flags. */
  lemma ReloadRoundTrip(sp: SetSpec, rows: seq<RowState>, es: seq<Entry>)
    requires Placed(es) && Inv(sp, rows, SetView(es, sp.fs))
    ensures Renderable(sp, SetView(es, sp.fs)) && RowKeys(RowsOf(es, sp.fs))
    ensures forall a | 0 <= a < |rows| ::
      rows[a].index in SetView(es, sp.fs) <==> a < AnsweredCount(rows, SetView(es, sp.fs))
    ensures var rendered := AnsweredRows(sp, RowsOf(es, sp.fs));
      RowsOf(es, sp.fs) != [] ==>
        && |rendered| == AnsweredCount(rows, SetView(es, sp.fs))
        && forall a | 0 <= a < |rendered| :: SameRow(sp, rendered[a], rows[a])
  {
    RowsOfPlaced(es, sp.fs);
    var values, setValue := SetView(es, sp.fs), RowsOf(es, sp.fs);
    InvIsRenderable(sp, rows, values);
    var k := AnsweredCount(rows, values);
    forall a | 0 <= a < |rows| ensures rows[a].index in values <==> a < k {
      if rows[a].index in values { assert HasEnabledRow(rows, rows[a].index); }
    }
    if setValue != [] {
      EntryRowsShape(sp, setValue);
      var rendered := AnsweredRows(sp, setValue);
      forall i ensures HasRow(rendered, i) <==> HasRow(rows[..k], i) {
        AnsweredPrefix(sp, rows, values, i);
        if i in values { EntryRowsCover(sp, setValue, i); }
      }
      SameIndices(rendered, rows[..k]);
      forall a | 0 <= a < |rendered| ensures SameRow(sp, rendered[a], rows[a]) {
        assert rows[..k][a] == rows[a];
        assert AnsweredRowOk(sp, rows[a], values) && RenderedRow(sp, rendered[a]);
      }
    }
  }

  lemma InvIsRenderable(sp: SetSpec, rows: seq<RowState>, values: SetValues)
    requires Inv(sp, rows, values)
    ensures Renderable(sp, values)
  {
    forall i | i in values ensures sp.protoIndex <= i && Complete(sp, values[i]) {
      assert HasEnabledRow(rows, i);
      var a :| 0 <= a < |rows| - 1 && rows[a].index == i;
      assert AnsweredRowOk(sp, rows[a], values);
    }
  }

  // ------------------------------------------------------- when ids are not unique

  /** Whether the row's copy of field j is rendered with the prototype's own id. */
  ghost predicate KeepsPrototypeId(sp: SetSpec, e: Entry, j: nat)
    requires j < |sp.leaves|
  {
    e.key.Row? && (e.key.index == sp.protoIndex || sp.leaves[j].name !in LeafView(Children(e.value)))
  }

  /** Two rows rendered from answers share an id of field j exactly when each of them
      either stands at the prototype's index or has no entry for the field. */
  lemma SharedIdsAfterRender(sp: SetSpec, setValue: seq<Entry>, e1: Entry, e2: Entry, j: nat)
    requires RowsPlaced(sp.fs, setValue) && e1 in setValue && e2 in setValue && e1.key != e2.key && j < |sp.leaves|
    ensures NodeId(sp, EntryRow(sp, e1), j) == NodeId(sp, EntryRow(sp, e2), j) <==>
      KeepsPrototypeId(sp, e1, j) && KeepsPrototypeId(sp, e2, j)
  {
    RenderedIndexOfEntry(e1.value.entries, sp.fs, e1.key.index, sp.leaves[j].name, sp.protoIndex);
    RenderedIndexOfEntry(e2.value.entries, sp.fs, e2.key.index, sp.leaves[j].name, sp.protoIndex);
    assert e1.key == Row(sp.fs, e1.key.index) && e2.key == Row(sp.fs, e2.key.index);
  }

  /** On a form that keeps the invariant the ids of rows and form fields are unique. */
  lemma FieldIdsAreUnique(sp: SetSpec, rows: seq<RowState>, a: nat, j: nat, b: nat, k: nat)
    requires SpecOk(sp) && RowsOk(sp, rows) && a < |rows| && b < |rows|
    requires j < |sp.leaves| && k < |sp.leaves| && sp.leaves[j].isField && (a, j) != (b, k)
    ensures NodeId(sp, rows[a], j) != NodeId(sp, rows[b], k)
    ensures a != b ==> rows[a].index != rows[b].index
  {
  }

  // ------------------------------------------------------- when a set is rendered again

  /** A row that is disabled before the end stays so, however often the set is rendered. */
  lemma DisabledStays(sp: SetSpec, rows: seq<RowState>, setValue: seq<Entry>)
    requires |rows| >= 2 && rows[|rows| - 1].disabled && setValue == []
    ensures var r := Rendered(sp, rows, setValue);
      |r| == |rows| + 2 && r[..|rows|] == rows && r[|r| - 1].disabled && !RowsOk(sp, r)
  {
    var r := Rendered(sp, rows, setValue);
    assert r[|rows| - 1] == rows[|rows| - 1];
  }

  /** Rendering a set again keeps the invariant if and only if the set has answered rows,
      which are then made anew; without them, placeholders are added to placeholders. */
  lemma RenderingAgainIff(sp: SetSpec, rows: seq<RowState>, es: seq<Entry>)
    requires Placed(es) && Renderable(sp, SetView(es, sp.fs))
    requires |rows| >= 2 && rows[|rows| - 1].disabled
    ensures RowKeys(RowsOf(es, sp.fs))
    ensures var r := Rendered(sp, rows, RowsOf(es, sp.fs));
      && |r| >= 2 && r[|r| - 1].disabled
      && (Inv(sp, r, SetView(es, sp.fs)) <==> RowsOf(es, sp.fs) != [])
  {
    RowsOfPlaced(es, sp.fs);
    if RowsOf(es, sp.fs) == [] {
      DisabledStays(sp, rows, RowsOf(es, sp.fs));
    } else {
      InitialRenderEstablishes(sp, es);
    }
  }

  /** A fieldset that nobody has answered: rendered once it has an enabled and a disabled
      row, and rendered again two more, with the second still disabled. */
  lemma UnansweredRenderedAgain(sp: SetSpec)
    ensures var once := InitialRows(sp, []);
      && |once| == 2 && !once[0].disabled && once[1].disabled
      && var again := Rendered(sp, once, []);
      && |again| == 4 && !again[0].disabled && again[1].disabled && !again[2].disabled && again[3].disabled
      && !RowsOk(sp, again)
  {
    assert Read([], Row(sp.fs, sp.protoIndex)) == Flat("");
    var once := InitialRows(sp, []);
    DisabledStays(sp, once, []);
  }
}
