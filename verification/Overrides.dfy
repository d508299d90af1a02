/** Answers that officers override: what opening an application writes into them. */
module Overrides {
  import opened FieldIds
  import opened Options
  import opened Texts
  import opened Decimal

  const CALCULATOR := "vaTraineeDayCalculator"

  /** A part of a calculator's answer; a part made from a missing one has no key. */
  datatype Subfield = Subfield(key: Option<string>, value: string)

  datatype Value = Text(text: string) | Parts(parts: seq<Subfield>)

  datatype Answer = Answer(key: string, value: Value, fieldType: string)

  function FindPart(parts: seq<Subfield>, key: string): Option<Subfield> {
    if parts == [] then None
    else if parts[0].key == Some(key) then Some(parts[0])
    else FindPart(parts[1..], key)
  }

  function PartOf(v: Value, id: string, name: string): Option<Subfield> {
    match v
    case Text(_) => None
    case Parts(parts) => FindPart(parts, id + "." + name)
  }

  /** The first node with the key, in preorder; the empty text if there is none. */
  function Read(es: seq<Answer>, id: string): Value {
    if es == [] then Text("")
    else if es[0].key == id then es[0].value
    else
      match es[0].value
      case Text(_) => Read(es[1..], id)
      case Parts(parts) =>
        var part := FindPart(parts, id);
        if part.Some? then Text(part.value.value) else Read(es[1..], id)
  }

  /** Sets the first answer with the key, or appends one. */
  function Write(es: seq<Answer>, id: string, value: Value, fieldType: string): seq<Answer> {
    if es == [] then [Answer(id, value, fieldType)]
    else if es[0].key == id then [es[0].(value := value)] + es[1..]
    else [es[0]] + Write(es[1..], id, value, fieldType)
  }

  /** No part of a calculator has the id of a field. */
  predicate PartsFree(v: Value, ids: set<string>) {
    v.Parts? ==> forall i | 0 <= i < |v.parts| && v.parts[i].key.Some? :: v.parts[i].key.value !in ids
  }

  predicate NoClash(es: seq<Answer>, ids: set<string>) {
    forall i | 0 <= i < |es| :: PartsFree(es[i].value, ids)
  }

  function KeysOf(es: seq<Answer>, fieldType: string): set<string> {
    set i | 0 <= i < |es| && es[i].fieldType == fieldType :: es[i].key
  }

  lemma {:induction false} NoSuchPart(parts: seq<Subfield>, id: string, ids: set<string>)
    requires PartsFree(Parts(parts), ids) && id in ids
    ensures FindPart(parts, id) == None
  {
    if parts != [] {
      assert forall i | 0 <= i < |parts[1..]| :: parts[1..][i] == parts[i + 1];
      NoSuchPart(parts[1..], id, ids);
    }
  }

  lemma ReadStep(es: seq<Answer>, id: string, ids: set<string>)
    requires NoClash(es, ids) && id in ids && es != []
    ensures NoClash(es[1..], ids) && Read(es, id) == if es[0].key == id then es[0].value else Read(es[1..], id)
  {
    assert forall i | 0 <= i < |es[1..]| :: es[1..][i] == es[i + 1];
    if es[0].value.Parts? { NoSuchPart(es[0].value.parts, id, ids); }
  }

  /** A write sets what the field reads, and no other field's. */
  lemma {:induction false} ReadWritten(es: seq<Answer>, id: string, value: Value, fieldType: string, ids: set<string>, other: string)
    requires NoClash(es, ids) && PartsFree(value, ids) && id in ids && other in ids
    ensures NoClash(Write(es, id, value, fieldType), ids)
    ensures Read(Write(es, id, value, fieldType), other) == if other == id then value else Read(es, other)
  {
    var r := Write(es, id, value, fieldType);
    if es == [] {
      ReadStep(r, other, ids);
    } else if es[0].key == id {
      assert r[1..] == es[1..];
      ReadStep(es, other, ids);
      ReadStep(r, other, ids);
    } else {
      ReadStep(es, other, ids);
      ReadWritten(es[1..], id, value, fieldType, ids, other);
      assert r[1..] == Write(es[1..], id, value, fieldType);
      ReadStep(r, other, ids);
    }
  }

  lemma ReadsWritten(es: seq<Answer>, id: string, value: Value, fieldType: string, ids: set<string>)
    requires NoClash(es, ids) && PartsFree(value, ids) && id in ids
    ensures var r := Write(es, id, value, fieldType);
      NoClash(r, ids) && forall other | other in ids :: Read(r, other) == if other == id then value else Read(es, other)
  {
    ReadWritten(es, id, value, fieldType, ids, id);
    forall other | other in ids
      ensures Read(Write(es, id, value, fieldType), other) == if other == id then value else Read(es, other)
    {
      ReadWritten(es, id, value, fieldType, ids, other);
    }
  }

  /** Where written answers stand in the list. */
  lemma {:induction false} WrittenAnswers(es: seq<Answer>, id: string, value: Value, fieldType: string)
    ensures var r := Write(es, id, value, fieldType);
      && |es| <= |r| <= |es| + 1
      && (forall i | 0 <= i < |es| ::
           r[i].key == es[i].key && r[i].fieldType == es[i].fieldType && (es[i].key != id ==> r[i] == es[i]))
      && (|r| == |es| + 1 ==> r[|es|] == Answer(id, value, fieldType))
      && exists i :: 0 <= i < |r| && r[i].key == id
  {
    var r := Write(es, id, value, fieldType);
    if es == [] || es[0].key == id {
      assert r[0].key == id;
    } else {
      var rest := Write(es[1..], id, value, fieldType);
      WrittenAnswers(es[1..], id, value, fieldType);
      assert forall i | 0 < i < |r| :: r[i] == rest[i - 1];
      assert forall i | 0 < i < |es| :: es[i] == es[1..][i - 1];
      var i :| 0 <= i < |rest| && rest[i].key == id;
      assert r[i + 1].key == id;
    }
  }

  datatype Pass = Pass(answers: seq<Answer>, did: bool) | Threw

  // ------------------------------------------------------------------ trainee days

  /** An answer of the application to a trainee day calculator. */
  datatype Default = Default(id: string, value: Value)

  datatype Renewal = Kept | Renewed(value: Value) | Failed

  /** The total as text, from scope, person count and scope type. */
  type Compose = (string, string, string) -> string

  /** When the scope types differ, the application's one and a new total are taken over. */
  function Renew(old_: Value, d: Default, composeTotal: Compose): Renewal {
    var oldType, newType := PartOf(old_, d.id, "scope-type"), PartOf(d.value, d.id, "scope-type");
    if oldType.Some? && newType.Some? && oldType.value.value != newType.value.value then
      var scope, persons := PartOf(old_, d.id, "scope"), PartOf(old_, d.id, "person-count");
      if scope.None? || persons.None? then Failed
      else
        var total := PartOf(old_, d.id, "total");
        var newTotal := composeTotal(scope.value.value, persons.value.value, newType.value.value);
        Renewed(Parts([persons.value, scope.value, oldType.value.(value := newType.value.value),
                       Subfield(if total.Some? then total.value.key else None, newTotal)]))
    else Kept
  }

  function AddOrUpdate(es: seq<Answer>, d: Default, composeTotal: Compose): Pass {
    var oldValue := Read(es, d.id);
    if oldValue == Text("") then Pass(Write(es, d.id, d.value, CALCULATOR), true)
    else
      match Renew(oldValue, d, composeTotal)
      case Kept => Pass(es, false)
      case Renewed(value) => Pass(Write(es, d.id, value, CALCULATOR), true)
      case Failed => Threw
  }

  function AddOrUpdateAll(es: seq<Answer>, ds: seq<Default>, composeTotal: Compose): Pass
    decreases |ds|
  {
    if ds == [] then Pass(es, false)
    else
      match AddOrUpdate(es, ds[0], composeTotal)
      case Threw => Threw
      case Pass(es1, did) =>
        match AddOrUpdateAll(es1, ds[1..], composeTotal)
        case Threw => Threw
        case Pass(es2, did2) => Pass(es2, did || did2)
  }

  function DefaultIds(ds: seq<Default>): set<string> {
    set i | 0 <= i < |ds| :: ds[i].id
  }

  function WithoutKeys(es: seq<Answer>, keys: set<string>): seq<Answer> {
    if es == [] then []
    else if es[0].key in keys then WithoutKeys(es[1..], keys)
    else [es[0]] + WithoutKeys(es[1..], keys)
  }

  /** Calculator answers that the application no longer has are deleted. */
  function DeleteStale(es: seq<Answer>, ds: seq<Default>): Pass {
    var stale := KeysOf(es, CALCULATOR) - DefaultIds(ds);
    if stale == {} then Pass(es, false) else Pass(WithoutKeys(es, stale), true)
  }

  function TraineeDays(es: seq<Answer>, ds: seq<Default>, composeTotal: Compose): Pass {
    match AddOrUpdateAll(es, ds, composeTotal)
    case Threw => Threw
    case Pass(es1, did) => var deleted := DeleteStale(es1, ds); Pass(deleted.answers, did || deleted.did)
  }

  /** What a run leaves behind for one calculator, so that the next has nothing to do. */
  predicate Settled(es: seq<Answer>, d: Default, composeTotal: Compose) {
    var v := Read(es, d.id);
    (v == Text("") ==> d.value == Text("")) && Renew(v, d, composeTotal) == Kept
  }

  predicate DistinctIds(ds: seq<Default>) {
    forall i, j | 0 <= i < j < |ds| :: ds[i].id != ds[j].id
  }

  /** What the theorems ask of the answers: the field ids are apart from those of the
      parts, and a calculator's answer has its type. */
  ghost predicate CalculatorsOk(es: seq<Answer>, ds: seq<Default>, ids: set<string>) {
    && NoClash(es, ids) && DistinctIds(ds) && DefaultIds(ds) <= ids
    && (forall i | 0 <= i < |ds| :: PartsFree(ds[i].value, ids))
    && forall i | 0 <= i < |es| && es[i].key in DefaultIds(ds) :: es[i].fieldType == CALCULATOR
  }

  lemma SuffixesDiffer(id: string)
    ensures id + "." + "scope-type" != id + "." + "scope" && id + "." + "scope-type" != id + "." + "person-count"
  {
    assert |id + "." + "scope-type"| == |id| + 11 && |id + "." + "scope"| == |id| + 6;
    assert |id + "." + "person-count"| == |id| + 13;
  }

  lemma {:induction false} PartFound(parts: seq<Subfield>, key: string)
    ensures var r := FindPart(parts, key);
      r.Some? ==> r.value.key == Some(key) && exists i :: 0 <= i < |parts| && parts[i] == r.value
  {
    if parts != [] && parts[0].key != Some(key) {
      PartFound(parts[1..], key);
      if FindPart(parts[1..], key).Some? {
        var i :| 0 <= i < |parts[1..]| && parts[1..][i] == FindPart(parts[1..], key).value;
        assert parts[i + 1] == FindPart(parts, key).value;
      }
    }
  }

  lemma PartIsFree(v: Value, id: string, name: string, ids: set<string>)
    requires PartsFree(v, ids)
    ensures var r := PartOf(v, id, name);
      r.Some? ==> r.value.key == Some(id + "." + name) && r.value.key.value !in ids
  {
    if v.Parts? { PartFound(v.parts, id + "." + name); }
  }

  /** A renewed answer is kept by the next run. */
  lemma RenewedIsKept(v: Value, d: Default, composeTotal: Compose, ids: set<string>)
    requires PartsFree(v, ids) && Renew(v, d, composeTotal).Renewed?
    ensures var r := Renew(v, d, composeTotal).value;
      r != Text("") && PartsFree(r, ids) && Renew(r, d, composeTotal) == Kept
  {
    PartIsFree(v, d.id, "scope-type", ids);
    PartIsFree(v, d.id, "scope", ids);
    PartIsFree(v, d.id, "person-count", ids);
    PartIsFree(v, d.id, "total", ids);
    SuffixesDiffer(d.id);
    var r := Renew(v, d, composeTotal).value;
    ThirdPart(r.parts, d.id + "." + "scope-type");
  }

  lemma ThirdPart(parts: seq<Subfield>, key: string)
    requires |parts| == 4 && parts[0].key != Some(key) && parts[1].key != Some(key) && parts[2].key == Some(key)
    ensures FindPart(parts, key) == Some(parts[2])
  {
    assert parts[1..][0] == parts[1] && parts[1..][1..][0] == parts[2];
    assert FindPart(parts[1..][1..], key) == Some(parts[2]);
  }

  lemma ReadIsFree(es: seq<Answer>, id: string, ids: set<string>)
    requires NoClash(es, ids) && id in ids
    ensures PartsFree(Read(es, id), ids)
    ensures Read(es, id) != Text("") ==> exists i :: 0 <= i < |es| && es[i].key == id
  {
    if es != [] {
      ReadStep(es, id, ids);
      if es[0].key != id {
        ReadIsFree(es[1..], id, ids);
        if Read(es, id) != Text("") {
          var i :| 0 <= i < |es[1..]| && es[1..][i].key == id;
          assert es[i + 1].key == id;
        }
      }
    }
  }

  function PartText(v: Value, id: string, name: string): Option<string> {
    var part := PartOf(v, id, name);
    if part.Some? then Some(part.value.value) else None
  }

  /** The application's answer has another scope type than the overridden one. */
  predicate TypesDiffer(before: Value, d: Default) {
    var old_, new_ := PartText(before, d.id, "scope-type"), PartText(d.value, d.id, "scope-type");
    old_.Some? && new_.Some? && old_ != new_
  }

  /** A calculator that was not overridden gets the application's answer as it is. One that
      was keeps its scope and person count; it changes only when the scope types differ, and
      then has the application's type, and the total that it makes. */
  predicate OverriddenAs(before: Value, now: Value, d: Default, composeTotal: Compose) {
    if before == Text("") then now == d.value
    else if !TypesDiffer(before, d) then now == before
    else
      var scope, persons := PartText(before, d.id, "scope"), PartText(before, d.id, "person-count");
      var newType := PartText(d.value, d.id, "scope-type");
      && scope.Some? && persons.Some?
      && PartText(now, d.id, "scope") == scope && PartText(now, d.id, "person-count") == persons
      && PartText(now, d.id, "scope-type") == newType
      && PartText(now, d.id, "total") ==
           if PartText(before, d.id, "total").Some? then Some(composeTotal(scope.value, persons.value, newType.value)) else None
  }

  lemma OtherSuffixes(id: string)
    ensures var t, s, p, n := id + "." + "total", id + "." + "scope", id + "." + "person-count", id + "." + "scope-type";
      t != s && t != p && t != n && s != p && s != n && p != n
  {
    var t, s, p, n := id + "." + "total", id + "." + "scope", id + "." + "person-count", id + "." + "scope-type";
    assert |t| == |s| && t[|id| + 1] == 't' && s[|id| + 1] == 's';
    assert |p| == |id| + 13 && |n| == |id| + 11;
  }

  lemma FoundAmongFour(parts: seq<Subfield>, key: string)
    requires |parts| == 4
    ensures FindPart(parts, key) ==
      if parts[0].key == Some(key) then Some(parts[0]) else if parts[1].key == Some(key) then Some(parts[1])
      else if parts[2].key == Some(key) then Some(parts[2]) else if parts[3].key == Some(key) then Some(parts[3]) else None
  {
    var a, b, c := parts[1..], parts[2..], parts[3..];
    assert a[0] == parts[1] && a[1..] == b && b[0] == parts[2] && b[1..] == c && c[0] == parts[3] && c[1..] == [];
    assert FindPart(c[1..], key) == None;
    assert FindPart(c, key) == if parts[3].key == Some(key) then Some(parts[3]) else None;
    assert FindPart(b, key) == if parts[2].key == Some(key) then Some(parts[2]) else FindPart(c, key);
    assert FindPart(a, key) == if parts[1].key == Some(key) then Some(parts[1]) else FindPart(b, key);
  }

  lemma RenewedMeans(before: Value, d: Default, composeTotal: Compose, ids: set<string>)
    requires PartsFree(before, ids) && before != Text("")
    ensures match Renew(before, d, composeTotal)
      case Kept => OverriddenAs(before, before, d, composeTotal)
      case Renewed(now) => OverriddenAs(before, now, d, composeTotal)
      case Failed => TypesDiffer(before, d) && (PartText(before, d.id, "scope").None? || PartText(before, d.id, "person-count").None?)
  {
    var id := d.id;
    PartIsFree(before, id, "scope-type", ids);
    PartIsFree(before, id, "scope", ids);
    PartIsFree(before, id, "person-count", ids);
    PartIsFree(before, id, "total", ids);
    var r := Renew(before, d, composeTotal);
    if r.Renewed? {
      OtherSuffixes(id);
      FoundAmongFour(r.value.parts, id + "." + "scope");
      FoundAmongFour(r.value.parts, id + "." + "person-count");
      FoundAmongFour(r.value.parts, id + "." + "scope-type");
      FoundAmongFour(r.value.parts, id + "." + "total");
    }
  }

  /** The answers after one calculator has been seen to. */
  ghost predicate SeenTo(es: seq<Answer>, es1: seq<Answer>, d: Default, ids: set<string>, composeTotal: Compose) {
    && NoClash(es1, ids) && Settled(es1, d, composeTotal)
    && OverriddenAs(Read(es, d.id), Read(es1, d.id), d, composeTotal)
    && (Read(es1, d.id) == Text("") <==> d.value == Text("") && Read(es, d.id) == Text(""))
    && (forall other | other in ids && other != d.id :: Read(es1, other) == Read(es, other))
    && KeysOf(es1, CALCULATOR) == KeysOf(es, CALCULATOR) + {d.id}
    && forall i | 0 <= i < |es1| :: es1[i] in es || (es1[i].key == d.id && es1[i].fieldType == CALCULATOR)
  }

  lemma WriteSeesTo(es: seq<Answer>, d: Default, value: Value, ids: set<string>)
    requires NoClash(es, ids) && PartsFree(value, ids) && d.id in ids
    requires forall i | 0 <= i < |es| && es[i].key == d.id :: es[i].fieldType == CALCULATOR
    ensures var r := Write(es, d.id, value, CALCULATOR);
      && NoClash(r, ids) && Read(r, d.id) == value
      && (forall other | other in ids && other != d.id :: Read(r, other) == Read(es, other))
      && KeysOf(r, CALCULATOR) == KeysOf(es, CALCULATOR) + {d.id}
      && forall i | 0 <= i < |r| :: r[i] in es || (r[i].key == d.id && r[i].fieldType == CALCULATOR)
  {
    var r := Write(es, d.id, value, CALCULATOR);
    ReadsWritten(es, d.id, value, CALCULATOR, ids);
    WrittenKeys(es, d.id, value);
    WrittenTypes(es, d.id, value);
  }

  lemma WrittenTypes(es: seq<Answer>, id: string, value: Value)
    requires forall i | 0 <= i < |es| && es[i].key == id :: es[i].fieldType == CALCULATOR
    ensures var r := Write(es, id, value, CALCULATOR);
      forall i | 0 <= i < |r| :: r[i] in es || (r[i].key == id && r[i].fieldType == CALCULATOR)
  {
    var r := Write(es, id, value, CALCULATOR);
    WrittenAnswers(es, id, value, CALCULATOR);
    forall i | 0 <= i < |r| ensures r[i] in es || (r[i].key == id && r[i].fieldType == CALCULATOR) {
      if i < |es| { assert es[i] in es; }
    }
  }

  lemma WrittenKeys(es: seq<Answer>, id: string, value: Value)
    requires forall i | 0 <= i < |es| && es[i].key == id :: es[i].fieldType == CALCULATOR
    ensures KeysOf(Write(es, id, value, CALCULATOR), CALCULATOR) == KeysOf(es, CALCULATOR) + {id}
  {
    var r := Write(es, id, value, CALCULATOR);
    WrittenKey(es, id, value);
    forall k ensures k in KeysOf(r, CALCULATOR) <==> k in KeysOf(es, CALCULATOR) + {id} { OtherKey(es, id, value, k); }
  }

  lemma WrittenKey(es: seq<Answer>, id: string, value: Value)
    requires forall i | 0 <= i < |es| && es[i].key == id :: es[i].fieldType == CALCULATOR
    ensures id in KeysOf(Write(es, id, value, CALCULATOR), CALCULATOR)
  {
    WrittenAnswers(es, id, value, CALCULATOR);
  }

  lemma OtherKey(es: seq<Answer>, id: string, value: Value, k: string)
    ensures k != id ==> (k in KeysOf(Write(es, id, value, CALCULATOR), CALCULATOR) <==> k in KeysOf(es, CALCULATOR))
  {
    var r := Write(es, id, value, CALCULATOR);
    WrittenAnswers(es, id, value, CALCULATOR);
    if k != id && k in KeysOf(es, CALCULATOR) {
      var i :| 0 <= i < |es| && es[i].fieldType == CALCULATOR && es[i].key == k;
      assert r[i] == es[i];
    }
    if k != id && k in KeysOf(r, CALCULATOR) {
      var i :| 0 <= i < |r| && r[i].fieldType == CALCULATOR && r[i].key == k;
      assert i < |es| && es[i] == r[i];
    }
  }

  lemma AddOrUpdateSeesTo(es: seq<Answer>, d: Default, composeTotal: Compose, ids: set<string>)
    requires NoClash(es, ids) && PartsFree(d.value, ids) && d.id in ids
    requires forall i | 0 <= i < |es| && es[i].key == d.id :: es[i].fieldType == CALCULATOR
    requires AddOrUpdate(es, d, composeTotal).Pass?
    ensures SeenTo(es, AddOrUpdate(es, d, composeTotal).answers, d, ids, composeTotal)
  {
    var v := Read(es, d.id);
    ReadIsFree(es, d.id, ids);
    if v == Text("") {
      WriteSeesTo(es, d, d.value, ids);
    } else if Renew(v, d, composeTotal).Renewed? {
      RenewedIsKept(v, d, composeTotal, ids);
      RenewedMeans(v, d, composeTotal, ids);
      WriteSeesTo(es, d, Renew(v, d, composeTotal).value, ids);
    } else {
      RenewedMeans(v, d, composeTotal, ids);
      var i :| 0 <= i < |es| && es[i].key == d.id;
      assert d.id in KeysOf(es, CALCULATOR);
    }
  }

  /** The answers after all calculators have been seen to. */
  ghost predicate AllSeenTo(es: seq<Answer>, es1: seq<Answer>, ds: seq<Default>, ids: set<string>, composeTotal: Compose) {
    && CalculatorsOk(es1, ds, ids)
    && (forall k | 0 <= k < |ds| :: Settled(es1, ds[k], composeTotal))
    && (forall k | 0 <= k < |ds| :: OverriddenAs(Read(es, ds[k].id), Read(es1, ds[k].id), ds[k], composeTotal))
    && (forall k | 0 <= k < |ds| :: Read(es1, ds[k].id) == Text("") <==> ds[k].value == Text("") && Read(es, ds[k].id) == Text(""))
    && (forall other | other in ids && other !in DefaultIds(ds) :: Read(es1, other) == Read(es, other))
    && KeysOf(es1, CALCULATOR) == KeysOf(es, CALCULATOR) + DefaultIds(ds)
    && forall i | 0 <= i < |es1| :: es1[i] in es || (es1[i].key in DefaultIds(ds) && es1[i].fieldType == CALCULATOR)
  }

  lemma TailOk(es: seq<Answer>, es1: seq<Answer>, ds: seq<Default>, ids: set<string>, composeTotal: Compose)
    requires CalculatorsOk(es, ds, ids) && ds != [] && SeenTo(es, es1, ds[0], ids, composeTotal)
    ensures CalculatorsOk(es1, ds[1..], ids) && ds[0].id !in DefaultIds(ds[1..])
    ensures DefaultIds(ds) == {ds[0].id} + DefaultIds(ds[1..])
    ensures CalculatorsOk(es1, ds, ids)
  {
    assert forall k | 0 <= k < |ds[1..]| :: ds[1..][k] == ds[k + 1];
    forall id | id in DefaultIds(ds) ensures id in {ds[0].id} + DefaultIds(ds[1..]) {
      var k :| 0 <= k < |ds| && ds[k].id == id;
      if k > 0 { assert ds[1..][k - 1].id == id; }
    }
    forall i | 0 <= i < |es1| && es1[i].key in DefaultIds(ds) ensures es1[i].fieldType == CALCULATOR {
      if es1[i] in es {
        var j :| 0 <= j < |es| && es[j] == es1[i];
      }
    }
  }

  lemma {:induction false} AllAreSeenTo(es: seq<Answer>, ds: seq<Default>, composeTotal: Compose, ids: set<string>)
    requires CalculatorsOk(es, ds, ids) && AddOrUpdateAll(es, ds, composeTotal).Pass?
    ensures AllSeenTo(es, AddOrUpdateAll(es, ds, composeTotal).answers, ds, ids, composeTotal)
    decreases |ds|
  {
    if ds != [] {
      var d, rest := ds[0], ds[1..];
      assert d.id in DefaultIds(ds);
      AddOrUpdateSeesTo(es, d, composeTotal, ids);
      var es1 := AddOrUpdate(es, d, composeTotal).answers;
      TailOk(es, es1, ds, ids, composeTotal);
      AllAreSeenTo(es1, rest, composeTotal, ids);
      SeenToJoin(es, es1, AddOrUpdateAll(es1, rest, composeTotal).answers, ds, ids, composeTotal);
    }
  }

  lemma SeenToJoin(es: seq<Answer>, es1: seq<Answer>, es2: seq<Answer>, ds: seq<Default>, ids: set<string>, composeTotal: Compose)
    requires ds != [] && CalculatorsOk(es, ds, ids) && SeenTo(es, es1, ds[0], ids, composeTotal)
    requires AllSeenTo(es1, es2, ds[1..], ids, composeTotal)
    ensures AllSeenTo(es, es2, ds, ids, composeTotal)
  {
    TailOk(es, es1, ds, ids, composeTotal);
    assert Read(es2, ds[0].id) == Read(es1, ds[0].id);
    forall k | 0 <= k < |ds|
      ensures Settled(es2, ds[k], composeTotal)
      ensures OverriddenAs(Read(es, ds[k].id), Read(es2, ds[k].id), ds[k], composeTotal)
      ensures Read(es2, ds[k].id) == Text("") <==> ds[k].value == Text("") && Read(es, ds[k].id) == Text("")
    {
      if k > 0 {
        assert ds[1..][k - 1] == ds[k];
        assert ds[k].id in DefaultIds(ds) && ds[k].id != ds[0].id;
      }
    }
    JoinedTypes(es, es1, es2, ds, ids, composeTotal);
  }

  lemma JoinedTypes(es: seq<Answer>, es1: seq<Answer>, es2: seq<Answer>, ds: seq<Default>, ids: set<string>, composeTotal: Compose)
    requires ds != [] && CalculatorsOk(es, ds, ids) && SeenTo(es, es1, ds[0], ids, composeTotal)
    requires AllSeenTo(es1, es2, ds[1..], ids, composeTotal)
    ensures CalculatorsOk(es2, ds, ids)
    ensures forall i | 0 <= i < |es2| :: es2[i] in es || (es2[i].key in DefaultIds(ds) && es2[i].fieldType == CALCULATOR)
  {
    TailOk(es, es1, ds, ids, composeTotal);
    forall i | 0 <= i < |es2|
      ensures es2[i] in es || (es2[i].key in DefaultIds(ds) && es2[i].fieldType == CALCULATOR)
    {
      if es2[i] in es1 {
        var j :| 0 <= j < |es1| && es1[j] == es2[i];
      }
    }
    forall i | 0 <= i < |es2| && es2[i].key in DefaultIds(ds) ensures es2[i].fieldType == CALCULATOR {
      if es2[i] in es {
        var j :| 0 <= j < |es| && es[j] == es2[i];
      }
    }
  }

  // ------------------------------------------------------------------- stale ones

  lemma {:induction false} KeptAnswers(es: seq<Answer>, keys: set<string>)
    ensures forall e :: e in WithoutKeys(es, keys) <==> e in es && e.key !in keys
  {
    if es != [] {
      KeptAnswers(es[1..], keys);
      assert es == [es[0]] + es[1..];
    }
  }

  lemma {:induction false} ReadKept(es: seq<Answer>, keys: set<string>, ids: set<string>, id: string)
    requires NoClash(es, ids) && id in ids && id !in keys
    ensures Read(WithoutKeys(es, keys), id) == Read(es, id) && NoClash(WithoutKeys(es, keys), ids)
  {
    if es != [] {
      ReadStep(es, id, ids);
      ReadKept(es[1..], keys, ids, id);
      var r := WithoutKeys(es, keys);
      if es[0].key !in keys {
        assert r[1..] == WithoutKeys(es[1..], keys);
        ReadStep(r, id, ids);
      }
    }
  }

  lemma KeysKept(es: seq<Answer>, keys: set<string>, fieldType: string)
    ensures KeysOf(WithoutKeys(es, keys), fieldType) == KeysOf(es, fieldType) - keys
  {
    var r := WithoutKeys(es, keys);
    KeptAnswers(es, keys);
    forall k ensures k in KeysOf(r, fieldType) <==> k in KeysOf(es, fieldType) - keys {
      if k in KeysOf(r, fieldType) {
        var i :| 0 <= i < |r| && r[i].fieldType == fieldType && r[i].key == k;
        assert r[i] in es && r[i].key !in keys;
        var j :| 0 <= j < |es| && es[j] == r[i];
      }
      if k in KeysOf(es, fieldType) - keys {
        var i :| 0 <= i < |es| && es[i].fieldType == fieldType && es[i].key == k;
        assert es[i] in r;
        var j :| 0 <= j < |r| && r[j] == es[i];
      }
    }
  }

  /** What a run leaves behind: every calculator is settled, and the calculators answered
      are exactly those of the application. */
  ghost predicate Converged(es: seq<Answer>, ds: seq<Default>, ids: set<string>, composeTotal: Compose) {
    && NoClash(es, ids) && (forall k | 0 <= k < |ds| :: Settled(es, ds[k], composeTotal))
    && KeysOf(es, CALCULATOR) == DefaultIds(ds)
  }

  /** A run settles every calculator, leaves exactly the application's calculators, and
      changes no other field, unless that is a calculator that is no longer answered. */
  lemma RunConverges(es: seq<Answer>, ds: seq<Default>, composeTotal: Compose, ids: set<string>)
    requires CalculatorsOk(es, ds, ids) && TraineeDays(es, ds, composeTotal).Pass?
    ensures var es1 := TraineeDays(es, ds, composeTotal).answers;
      && Converged(es1, ds, ids, composeTotal)
      && (forall k | 0 <= k < |ds| :: OverriddenAs(Read(es, ds[k].id), Read(es1, ds[k].id), ds[k], composeTotal))
      && (forall k | 0 <= k < |ds| :: Read(es1, ds[k].id) == Text("") <==> ds[k].value == Text("") && Read(es, ds[k].id) == Text(""))
      && forall other | other in ids && other !in DefaultIds(ds) && other !in KeysOf(es, CALCULATOR) ::
           Read(es1, other) == Read(es, other)
  {
    AllAreSeenTo(es, ds, composeTotal, ids);
    var added := AddOrUpdateAll(es, ds, composeTotal).answers;
    StaleAreDeleted(added, ds, ids);
    var es1 := TraineeDays(es, ds, composeTotal).answers;
    assert es1 == DeleteStale(added, ds).answers;
    forall k | 0 <= k < |ds| ensures Settled(es1, ds[k], composeTotal) && Read(es1, ds[k].id) == Read(added, ds[k].id) {
      assert ds[k].id in DefaultIds(ds);
    }
  }

  lemma StaleAreDeleted(added: seq<Answer>, ds: seq<Default>, ids: set<string>)
    requires NoClash(added, ids) && DefaultIds(ds) <= KeysOf(added, CALCULATOR)
    ensures var r := DeleteStale(added, ds).answers;
      && NoClash(r, ids) && KeysOf(r, CALCULATOR) == DefaultIds(ds)
      && forall id | id in ids && (id in DefaultIds(ds) || id !in KeysOf(added, CALCULATOR)) :: Read(r, id) == Read(added, id)
  {
    var stale := KeysOf(added, CALCULATOR) - DefaultIds(ds);
    forall id | id in ids && id !in stale ensures Read(WithoutKeys(added, stale), id) == Read(added, id) {
      ReadKept(added, stale, ids, id);
    }
    KeysKept(added, stale, CALCULATOR);
    KeptNoClash(added, stale, ids);
    assert KeysOf(added, CALCULATOR) - stale == DefaultIds(ds);
  }

  lemma KeptNoClash(es: seq<Answer>, keys: set<string>, ids: set<string>)
    requires NoClash(es, ids)
    ensures NoClash(WithoutKeys(es, keys), ids)
  {
    KeptAnswers(es, keys);
    var r := WithoutKeys(es, keys);
    forall i | 0 <= i < |r| ensures PartsFree(r[i].value, ids) { assert r[i] in es; }
  }

  /** On settled calculators with answers, nothing is written. */
  lemma {:induction false} SettledAreKept(es: seq<Answer>, ds: seq<Default>, composeTotal: Compose)
    requires forall k | 0 <= k < |ds| :: Settled(es, ds[k], composeTotal) && Read(es, ds[k].id) != Text("")
    ensures AddOrUpdateAll(es, ds, composeTotal) == Pass(es, false)
    decreases |ds|
  {
    if ds != [] {
      assert forall k | 0 <= k < |ds[1..]| :: ds[1..][k] == ds[k + 1];
      SettledAreKept(es, ds[1..], composeTotal);
    }
  }

  /** A second run reports no update and changes nothing, when the application's answers
      to calculators are not empty. */
  lemma SecondRunChangesNothing(es: seq<Answer>, ds: seq<Default>, composeTotal: Compose, ids: set<string>)
    requires CalculatorsOk(es, ds, ids) && TraineeDays(es, ds, composeTotal).Pass?
    requires forall k | 0 <= k < |ds| :: ds[k].value != Text("")
    ensures var es1 := TraineeDays(es, ds, composeTotal).answers;
      TraineeDays(es1, ds, composeTotal) == Pass(es1, false)
  {
    RunConverges(es, ds, composeTotal, ids);
    SettledAreKept(TraineeDays(es, ds, composeTotal).answers, ds, composeTotal);
  }

  lemma {:induction false} EmptyIsWrittenAgain(es: seq<Answer>, ds: seq<Default>, composeTotal: Compose, ids: set<string>)
    requires CalculatorsOk(es, ds, ids) && forall k | 0 <= k < |ds| :: Settled(es, ds[k], composeTotal)
    ensures var r := AddOrUpdateAll(es, ds, composeTotal);
      r.Pass? && (r.did <==> exists k :: 0 <= k < |ds| && Read(es, ds[k].id) == Text(""))
    decreases |ds|
  {
    if ds != [] {
      assert ds[0].id in DefaultIds(ds);
      AddOrUpdateSeesTo(es, ds[0], composeTotal, ids);
      var es1 := AddOrUpdate(es, ds[0], composeTotal).answers;
      TailOk(es, es1, ds, ids, composeTotal);
      forall k | 0 <= k < |ds[1..]| ensures Read(es1, ds[1..][k].id) == Read(es, ds[1..][k].id) {
        assert ds[1..][k] == ds[k + 1] && ds[k + 1].id in DefaultIds(ds) && ds[k + 1].id != ds[0].id;
      }
      assert forall k | 0 <= k < |ds[1..]| :: ds[1..][k] == ds[k + 1];
      EmptyIsWrittenAgain(es1, ds[1..], composeTotal, ids);
      if exists k :: 0 <= k < |ds| && Read(es, ds[k].id) == Text("") {
        var k :| 0 <= k < |ds| && Read(es, ds[k].id) == Text("");
        if k > 0 { assert Read(es1, ds[1..][k - 1].id) == Text(""); }
      }
    }
  }

  /** Exactly when a calculator is answered by the empty text, and was not overridden, does
      a second run report an update again. */
  lemma SecondRunUpdatesIff(es: seq<Answer>, ds: seq<Default>, composeTotal: Compose, ids: set<string>)
    requires CalculatorsOk(es, ds, ids) && TraineeDays(es, ds, composeTotal).Pass?
    ensures var second := TraineeDays(TraineeDays(es, ds, composeTotal).answers, ds, composeTotal);
      second.Pass? &&
      (second.did <==> exists k :: 0 <= k < |ds| && ds[k].value == Text("") && Read(es, ds[k].id) == Text(""))
  {
    RunConverges(es, ds, composeTotal, ids);
    var es1 := TraineeDays(es, ds, composeTotal).answers;
    CalculatorsStayOk(es1, ds, ids, es, composeTotal);
    EmptyIsWrittenAgain(es1, ds, composeTotal, ids);
    AllAreSeenTo(es1, ds, composeTotal, ids);
  }

  lemma CalculatorsStayOk(es1: seq<Answer>, ds: seq<Default>, ids: set<string>, es: seq<Answer>, composeTotal: Compose)
    requires CalculatorsOk(es, ds, ids) && TraineeDays(es, ds, composeTotal) .Pass?
    requires es1 == TraineeDays(es, ds, composeTotal).answers
    ensures CalculatorsOk(es1, ds, ids)
  {
    AllAreSeenTo(es, ds, composeTotal, ids);
    var added := AddOrUpdateAll(es, ds, composeTotal).answers;
    var stale := KeysOf(added, CALCULATOR) - DefaultIds(ds);
    KeptNoClash(added, stale, ids);
    KeptAnswers(added, stale);
    forall i | 0 <= i < |es1| && es1[i].key in DefaultIds(ds) ensures es1[i].fieldType == CALCULATOR {
      assert es1[i] in added;
      var j :| 0 <= j < |added| && added[j] == es1[i];
    }
  }

  /** A calculator whose renewal fails: the scope types differ, and the overridden answer
      lacks its scope or its person count. */
  predicate CannotRenew(es: seq<Answer>, d: Default) {
    var before := Read(es, d.id);
    TypesDiffer(before, d) && (PartText(before, d.id, "scope").None? || PartText(before, d.id, "person-count").None?)
  }

  lemma RestReadsTheSame(es: seq<Answer>, es1: seq<Answer>, ds: seq<Default>, ids: set<string>, composeTotal: Compose)
    requires CalculatorsOk(es, ds, ids) && ds != [] && SeenTo(es, es1, ds[0], ids, composeTotal)
    ensures forall k | 0 <= k < |ds[1..]| :: ds[1..][k] == ds[k + 1] && Read(es1, ds[1..][k].id) == Read(es, ds[k + 1].id)
  {
    forall k | 0 <= k < |ds[1..]| ensures ds[1..][k] == ds[k + 1] && Read(es1, ds[1..][k].id) == Read(es, ds[k + 1].id) {
      assert ds[k + 1].id in DefaultIds(ds) && ds[k + 1].id != ds[0].id;
    }
  }

  lemma OneThrowsIff(es: seq<Answer>, d: Default, composeTotal: Compose, ids: set<string>)
    requires NoClash(es, ids) && d.id in ids
    ensures AddOrUpdate(es, d, composeTotal).Threw? <==> CannotRenew(es, d)
  {
    ReadIsFree(es, d.id, ids);
    if Read(es, d.id) != Text("") { RenewedMeans(Read(es, d.id), d, composeTotal, ids); }
  }

  /** A run fails exactly when some calculator cannot be renewed. */
  lemma {:induction false} RunThrowsIff(es: seq<Answer>, ds: seq<Default>, composeTotal: Compose, ids: set<string>)
    requires CalculatorsOk(es, ds, ids)
    ensures TraineeDays(es, ds, composeTotal).Threw? <==> exists k :: 0 <= k < |ds| && CannotRenew(es, ds[k])
    decreases |ds|
  {
    if ds != [] {
      assert ds[0].id in DefaultIds(ds);
      OneThrowsIff(es, ds[0], composeTotal, ids);
      if AddOrUpdate(es, ds[0], composeTotal).Pass? {
        AddOrUpdateSeesTo(es, ds[0], composeTotal, ids);
        var es1 := AddOrUpdate(es, ds[0], composeTotal).answers;
        TailOk(es, es1, ds, ids, composeTotal);
        RestReadsTheSame(es, es1, ds, ids, composeTotal);
        RunThrowsIff(es1, ds[1..], composeTotal, ids);
        LaterCannotRenew(es, es1, ds);
      }
    }
  }

  lemma LaterCannotRenew(es: seq<Answer>, es1: seq<Answer>, ds: seq<Default>)
    requires ds != [] && !CannotRenew(es, ds[0])
    requires forall k | 0 <= k < |ds[1..]| :: ds[1..][k] == ds[k + 1] && Read(es1, ds[1..][k].id) == Read(es, ds[k + 1].id)
    ensures (exists k :: 0 <= k < |ds| && CannotRenew(es, ds[k])) <==> exists k :: 0 <= k < |ds[1..]| && CannotRenew(es1, ds[1..][k])
  {
    if k :| 0 <= k < |ds| && CannotRenew(es, ds[k]) { assert CannotRenew(es1, ds[1..][k - 1]); }
    if k :| 0 <= k < |ds[1..]| && CannotRenew(es1, ds[1..][k]) { assert CannotRenew(es, ds[k + 1]); }
  }

  /** A calculator that a run writes. */
  predicate ToWrite(es: seq<Answer>, d: Default) {
    Read(es, d.id) == Text("") || TypesDiffer(Read(es, d.id), d)
  }

  lemma {:induction false} AddingReportsIff(es: seq<Answer>, ds: seq<Default>, composeTotal: Compose, ids: set<string>)
    requires CalculatorsOk(es, ds, ids) && AddOrUpdateAll(es, ds, composeTotal).Pass?
    ensures AddOrUpdateAll(es, ds, composeTotal).did <==> exists k :: 0 <= k < |ds| && ToWrite(es, ds[k])
    decreases |ds|
  {
    if ds != [] {
      assert ds[0].id in DefaultIds(ds);
      ReadIsFree(es, ds[0].id, ids);
      if Read(es, ds[0].id) != Text("") { RenewedMeans(Read(es, ds[0].id), ds[0], composeTotal, ids); }
      AddOrUpdateSeesTo(es, ds[0], composeTotal, ids);
      var es1 := AddOrUpdate(es, ds[0], composeTotal).answers;
      TailOk(es, es1, ds, ids, composeTotal);
      RestReadsTheSame(es, es1, ds, ids, composeTotal);
      AddingReportsIff(es1, ds[1..], composeTotal, ids);
      LaterToWrite(es, es1, ds);
    }
  }

  lemma LaterToWrite(es: seq<Answer>, es1: seq<Answer>, ds: seq<Default>)
    requires ds != []
    requires forall k | 0 <= k < |ds[1..]| :: ds[1..][k] == ds[k + 1] && Read(es1, ds[1..][k].id) == Read(es, ds[k + 1].id)
    ensures (exists k :: 0 <= k < |ds| && ToWrite(es, ds[k])) <==>
      ToWrite(es, ds[0]) || exists k :: 0 <= k < |ds[1..]| && ToWrite(es1, ds[1..][k])
  {
    if k :| 0 <= k < |ds| && ToWrite(es, ds[k]) { if k > 0 { assert ToWrite(es1, ds[1..][k - 1]); } }
    if k :| 0 <= k < |ds[1..]| && ToWrite(es1, ds[1..][k]) { assert ToWrite(es, ds[k + 1]); }
  }

  /** A run reports an update exactly when it writes a calculator, or deletes one that the
      application no longer has. */
  lemma RunReportsIff(es: seq<Answer>, ds: seq<Default>, composeTotal: Compose, ids: set<string>)
    requires CalculatorsOk(es, ds, ids) && TraineeDays(es, ds, composeTotal).Pass?
    ensures TraineeDays(es, ds, composeTotal).did <==>
      (exists k :: 0 <= k < |ds| && ToWrite(es, ds[k])) || exists id :: id in KeysOf(es, CALCULATOR) && id !in DefaultIds(ds)
  {
    AddingReportsIff(es, ds, composeTotal, ids);
    AllAreSeenTo(es, ds, composeTotal, ids);
    var stale := KeysOf(AddOrUpdateAll(es, ds, composeTotal).answers, CALCULATOR) - DefaultIds(ds);
    assert stale == KeysOf(es, CALCULATOR) - DefaultIds(ds);
    var added := AddOrUpdateAll(es, ds, composeTotal);
    assert TraineeDays(es, ds, composeTotal).did <==> added.did || stale != {};
    if stale != {} { var id :| id in stale; assert id in KeysOf(es, CALCULATOR); }
    if id :| id in KeysOf(es, CALCULATOR) && id !in DefaultIds(ds) { assert id in stale; }
  }

  // ------------------------------------------------------------------------ budget

  /** A field of the budget, with the value it starts with, if it has one. */
  datatype BudgetField = BudgetField(id: string, fieldType: string, initial: Option<string>)

  /** The fields of a budget, and those whose answers are copied from the application. */
  datatype BudgetSpec = BudgetSpec(fields: seq<BudgetField>, copied: seq<BudgetField>)

  /** Flat answers of the application. */
  type Application = TextMap

  function InitOne(es: seq<Answer>, f: BudgetField): seq<Answer> {
    if Read(es, f.id) == Text("") && f.initial.Some? then Write(es, f.id, Text(f.initial.value), f.fieldType) else es
  }

  function InitDefaultValues(es: seq<Answer>, fields: seq<BudgetField>): seq<Answer>
    decreases |fields|
  {
    if fields == [] then es else InitDefaultValues(InitOne(es, fields[0]), fields[1..])
  }

  function CopyOne(es: seq<Answer>, f: BudgetField, application: Application): Pass {
    var newValue := TextAt(application, f.id);
    if Text(newValue) != Read(es, f.id) && newValue != "" then Pass(Write(es, f.id, Text(newValue), f.fieldType), true)
    else Pass(es, false)
  }

  function WriteChangedAnswers(es: seq<Answer>, fields: seq<BudgetField>, application: Application): (r: Pass)
    ensures r.Pass?
    decreases |fields|
  {
    if fields == [] then Pass(es, false)
    else
      var first := CopyOne(es, fields[0], application);
      var rest := WriteChangedAnswers(first.answers, fields[1..], application);
      Pass(rest.answers, first.did || rest.did)
  }

  function BudgetValues(es: seq<Answer>, b: BudgetSpec, application: Application): (r: Pass)
    ensures r.Pass?
  {
    WriteChangedAnswers(InitDefaultValues(es, b.fields), b.copied, application)
  }

  function FieldIdsOf(fields: seq<BudgetField>): set<string> {
    set i | 0 <= i < |fields| :: fields[i].id
  }

  function BudgetIds(b: BudgetSpec): set<string> {
    FieldIdsOf(b.fields) + FieldIdsOf(b.copied)
  }

  ghost predicate BudgetOk(es: seq<Answer>, b: BudgetSpec, ids: set<string>) {
    && NoClash(es, ids) && BudgetIds(b) <= ids
    && (forall i | 0 <= i < |b.fields| :: b.fields[i].fieldType != CALCULATOR)
    && (forall i | 0 <= i < |b.copied| :: b.copied[i].fieldType != CALCULATOR)
    && forall i | 0 <= i < |es| && es[i].key in BudgetIds(b) :: es[i].fieldType != CALCULATOR
  }

  /** Nothing is left to start with for the field, or only the empty text. */
  predicate Started(es: seq<Answer>, f: BudgetField) {
    f.initial.Some? && Read(es, f.id) == Text("") ==> f.initial.value == ""
  }

  predicate Copied(es: seq<Answer>, f: BudgetField, application: Application) {
    TextAt(application, f.id) == "" || Read(es, f.id) == Text(TextAt(application, f.id))
  }

  /** What a run leaves behind, so that the next one has nothing to do. */
  predicate BudgetSettled(es: seq<Answer>, b: BudgetSpec, application: Application) {
    && (forall i | 0 <= i < |b.fields| :: Started(es, b.fields[i]))
    && forall i | 0 <= i < |b.copied| :: Copied(es, b.copied[i], application)
  }

  /** Some of the given fields got a text that is not empty, or the one it read; nothing
      else can be told from reading, and the calculators are the same. */
  ghost predicate OnlyTexts(es: seq<Answer>, es1: seq<Answer>, fields: set<string>, ids: set<string>) {
    && NoClash(es1, ids)
    && (forall id | id in ids && id !in fields :: Read(es1, id) == Read(es, id))
    && (forall id | id in ids && Read(es1, id) == Text("") :: Read(es, id) == Text(""))
    && KeysOf(es1, CALCULATOR) == KeysOf(es, CALCULATOR)
    && forall i | 0 <= i < |es1| :: es1[i] in es || (es1[i].key in fields && es1[i].fieldType != CALCULATOR)
  }

  lemma TextWritten(es: seq<Answer>, id: string, text: string, fieldType: string, fields: set<string>, ids: set<string>)
    requires NoClash(es, ids) && id in ids && id in fields && fieldType != CALCULATOR
    requires forall i | 0 <= i < |es| && es[i].key in fields :: es[i].fieldType != CALCULATOR
    requires Read(es, id) == Text("") || text != ""
    ensures var r := Write(es, id, Text(text), fieldType);
      OnlyTexts(es, r, fields, ids) && Read(r, id) == Text(text)
  {
    var r := Write(es, id, Text(text), fieldType);
    ReadsWritten(es, id, Text(text), fieldType, ids);
    OtherKeys(es, id, text, fieldType);
    WrittenIn(es, id, text, fieldType, fields);
  }

  lemma WrittenIn(es: seq<Answer>, id: string, text: string, fieldType: string, fields: set<string>)
    requires id in fields && fieldType != CALCULATOR
    requires forall i | 0 <= i < |es| && es[i].key in fields :: es[i].fieldType != CALCULATOR
    ensures var r := Write(es, id, Text(text), fieldType);
      forall i | 0 <= i < |r| :: r[i] in es || (r[i].key in fields && r[i].fieldType != CALCULATOR)
  {
    var r := Write(es, id, Text(text), fieldType);
    WrittenAnswers(es, id, Text(text), fieldType);
    forall i | 0 <= i < |r| ensures r[i] in es || (r[i].key in fields && r[i].fieldType != CALCULATOR) {
      if i < |es| { assert es[i] in es; }
    }
  }

  lemma OtherKeys(es: seq<Answer>, id: string, text: string, fieldType: string)
    requires fieldType != CALCULATOR
    ensures KeysOf(Write(es, id, Text(text), fieldType), CALCULATOR) == KeysOf(es, CALCULATOR)
  {
    var r := Write(es, id, Text(text), fieldType);
    WrittenAnswers(es, id, Text(text), fieldType);
    forall k ensures k in KeysOf(r, CALCULATOR) <==> k in KeysOf(es, CALCULATOR) {
      if k in KeysOf(es, CALCULATOR) {
        var i :| 0 <= i < |es| && es[i].fieldType == CALCULATOR && es[i].key == k;
        assert r[i].key == k && r[i].fieldType == CALCULATOR;
      }
      if k in KeysOf(r, CALCULATOR) {
        var i :| 0 <= i < |r| && r[i].fieldType == CALCULATOR && r[i].key == k;
        assert es[i].key == k;
      }
    }
  }

  lemma OnlyTextsTwice(es: seq<Answer>, es1: seq<Answer>, es2: seq<Answer>, fields: set<string>, ids: set<string>)
    requires OnlyTexts(es, es1, fields, ids) && OnlyTexts(es1, es2, fields, ids)
    ensures OnlyTexts(es, es2, fields, ids)
  {
    forall i | 0 <= i < |es2| ensures es2[i] in es || (es2[i].key in fields && es2[i].fieldType != CALCULATOR) {
      if es2[i] in es1 { var j :| 0 <= j < |es1| && es1[j] == es2[i]; }
    }
  }

  lemma StillTyped(es: seq<Answer>, es1: seq<Answer>, fields: set<string>, ids: set<string>)
    requires OnlyTexts(es, es1, fields, ids)
    requires forall i | 0 <= i < |es| && es[i].key in fields :: es[i].fieldType != CALCULATOR
    ensures forall i | 0 <= i < |es1| && es1[i].key in fields :: es1[i].fieldType != CALCULATOR
  {
    forall i | 0 <= i < |es1| && es1[i].key in fields ensures es1[i].fieldType != CALCULATOR {
      if es1[i] in es { var j :| 0 <= j < |es| && es[j] == es1[i]; }
    }
  }

  ghost predicate FieldsOk(es: seq<Answer>, fs: seq<BudgetField>, fields: set<string>, ids: set<string>) {
    && NoClash(es, ids) && FieldIdsOf(fs) <= fields <= ids
    && (forall i | 0 <= i < |fs| :: fs[i].fieldType != CALCULATOR)
    && forall i | 0 <= i < |es| && es[i].key in fields :: es[i].fieldType != CALCULATOR
  }

  lemma TailFields(es: seq<Answer>, es1: seq<Answer>, fs: seq<BudgetField>, fields: set<string>, ids: set<string>)
    requires FieldsOk(es, fs, fields, ids) && fs != [] && OnlyTexts(es, es1, fields, ids)
    ensures FieldsOk(es1, fs[1..], fields, ids)
  {
    StillTyped(es, es1, fields, ids);
    assert forall i | 0 <= i < |fs[1..]| :: fs[1..][i] == fs[i + 1];
    forall id | id in FieldIdsOf(fs[1..]) ensures id in fields {
      var i :| 0 <= i < |fs[1..]| && fs[1..][i].id == id;
      assert fs[i + 1].id in FieldIdsOf(fs);
    }
  }

  lemma NoTexts(es: seq<Answer>, fields: set<string>, ids: set<string>)
    requires NoClash(es, ids)
    ensures OnlyTexts(es, es, fields, ids)
  {
  }

  /** A field that starts empty stays so, until it gets a text. */
  lemma {:induction false} InitStarts(es: seq<Answer>, fs: seq<BudgetField>, fields: set<string>, ids: set<string>)
    requires FieldsOk(es, fs, fields, ids)
    ensures OnlyTexts(es, InitDefaultValues(es, fs), fields, ids)
    ensures forall i | 0 <= i < |fs| :: Started(InitDefaultValues(es, fs), fs[i])
    ensures (forall i | 0 <= i < |fs| :: Started(es, fs[i])) ==>
      forall id | id in ids :: Read(InitDefaultValues(es, fs), id) == Read(es, id)
    decreases |fs|
  {
    if fs == [] {
      NoTexts(es, fields, ids);
    } else {
      var f, es1, r := fs[0], InitOne(es, fs[0]), InitDefaultValues(es, fs);
      InitOneStarts(es, f, fs, fields, ids);
      TailFields(es, es1, fs, fields, ids);
      InitStarts(es1, fs[1..], fields, ids);
      OnlyTextsTwice(es, es1, r, fields, ids);
      assert f.id in ids && (Read(r, f.id) == Text("") ==> Read(es1, f.id) == Text(""));
      forall i | 0 <= i < |fs| ensures Started(r, fs[i]) { if i > 0 { assert fs[1..][i - 1] == fs[i]; } }
      if forall i | 0 <= i < |fs| :: Started(es, fs[i]) {
        assert Started(es, f);
        forall i | 0 <= i < |fs[1..]| ensures Started(es1, fs[1..][i]) {
          assert fs[1..][i] == fs[i + 1] && Started(es, fs[i + 1]);
          assert fs[i + 1].id in FieldIdsOf(fs);
        }
      }
    }
  }

  lemma InitOneStarts(es: seq<Answer>, f: BudgetField, fs: seq<BudgetField>, fields: set<string>, ids: set<string>)
    requires FieldsOk(es, fs, fields, ids) && fs != [] && f == fs[0]
    ensures f.id in fields && f.id in ids
    ensures OnlyTexts(es, InitOne(es, f), fields, ids) && Started(InitOne(es, f), f)
    ensures Started(es, f) ==> forall id | id in ids :: Read(InitOne(es, f), id) == Read(es, id)
  {
    assert f.id in FieldIdsOf(fs);
    if Read(es, f.id) == Text("") && f.initial.Some? {
      TextWritten(es, f.id, f.initial.value, f.fieldType, fields, ids);
      forall id | id in ids && Started(es, f) ensures Read(InitOne(es, f), id) == Read(es, id) {
        ReadWritten(es, f.id, Text(f.initial.value), f.fieldType, ids, id);
      }
    } else {
      NoTexts(es, fields, ids);
    }
  }

  lemma CopyOneCopies(es: seq<Answer>, f: BudgetField, application: Application, fs: seq<BudgetField>, fields: set<string>, ids: set<string>)
    requires FieldsOk(es, fs, fields, ids) && fs != [] && f == fs[0]
    ensures f.id in fields && f.id in ids
    ensures var r := CopyOne(es, f, application);
      && r.Pass? && OnlyTexts(es, r.answers, fields, ids) && Copied(r.answers, f, application)
      && (forall id | id in ids && id != f.id :: Read(r.answers, id) == Read(es, id))
  {
    assert f.id in FieldIdsOf(fs);
    var text := TextAt(application, f.id);
    if Text(text) != Read(es, f.id) && text != "" {
      TextWritten(es, f.id, text, f.fieldType, fields, ids);
      forall id | id in ids && id != f.id ensures Read(CopyOne(es, f, application).answers, id) == Read(es, id) {
        ReadWritten(es, f.id, Text(text), f.fieldType, ids, id);
      }
    } else {
      NoTexts(es, fields, ids);
    }
  }

  lemma {:induction false} AllAreCopied(es: seq<Answer>, fs: seq<BudgetField>, application: Application, fields: set<string>, ids: set<string>)
    requires FieldsOk(es, fs, fields, ids)
    ensures var r := WriteChangedAnswers(es, fs, application).answers;
      && OnlyTexts(es, r, fields, ids)
      && (forall i | 0 <= i < |fs| :: Copied(r, fs[i], application))
      && forall f: BudgetField | f.id in ids && Copied(es, f, application) :: Copied(r, f, application)
    decreases |fs|
  {
    if fs == [] {
      NoTexts(es, fields, ids);
    } else {
      var es1, r := CopyOne(es, fs[0], application).answers, WriteChangedAnswers(es, fs, application).answers;
      CopyOneCopies(es, fs[0], application, fs, fields, ids);
      TailFields(es, es1, fs, fields, ids);
      AllAreCopied(es1, fs[1..], application, fields, ids);
      OnlyTextsTwice(es, es1, r, fields, ids);
      forall f: BudgetField | f.id in ids && Copied(es, f, application) ensures Copied(r, f, application) {
        assert Copied(es1, f, application) by { if f.id == fs[0].id { assert Copied(es1, fs[0], application); } }
      }
      forall i | 0 <= i < |fs| ensures Copied(r, fs[i], application) {
        if i > 0 { assert fs[1..][i - 1] == fs[i]; } else { assert Copied(es1, fs[0], application); }
      }
    }
  }

  lemma {:induction false} CopiedAreKept(es: seq<Answer>, fs: seq<BudgetField>, application: Application)
    requires forall i | 0 <= i < |fs| :: Copied(es, fs[i], application)
    ensures WriteChangedAnswers(es, fs, application) == Pass(es, false)
    decreases |fs|
  {
    if fs != [] {
      assert Copied(es, fs[0], application);
      assert forall i | 0 <= i < |fs[1..]| :: fs[1..][i] == fs[i + 1];
      CopiedAreKept(es, fs[1..], application);
    }
  }

  /** The first text that is not empty among the initial values of a field. */
  function InitialText(fs: seq<BudgetField>, id: string): string {
    if fs == [] then ""
    else if fs[0].id == id && fs[0].initial.Some? && fs[0].initial.value != "" then fs[0].initial.value
    else InitialText(fs[1..], id)
  }

  /** What a field reads after the initial values have been filled in. */
  function ReadStarted(es: seq<Answer>, fs: seq<BudgetField>, id: string): Value {
    if Read(es, id) == Text("") then Text(InitialText(fs, id)) else Read(es, id)
  }

  lemma InitOneReads(es: seq<Answer>, f: BudgetField, fs: seq<BudgetField>, fields: set<string>, ids: set<string>, id: string)
    requires FieldsOk(es, fs, fields, ids) && fs != [] && f == fs[0] && id in ids
    ensures Read(InitOne(es, f), id) ==
      if id == f.id && Read(es, id) == Text("") && f.initial.Some? then Text(f.initial.value) else Read(es, id)
  {
    assert f.id in FieldIdsOf(fs);
    if Read(es, f.id) == Text("") && f.initial.Some? {
      ReadWritten(es, f.id, Text(f.initial.value), f.fieldType, ids, id);
    }
  }

  /** Initial values fill empty fields, and every other field reads as before. */
  lemma {:induction false} InitReads(es: seq<Answer>, fs: seq<BudgetField>, fields: set<string>, ids: set<string>, id: string)
    requires FieldsOk(es, fs, fields, ids) && id in ids
    ensures Read(InitDefaultValues(es, fs), id) == ReadStarted(es, fs, id)
    decreases |fs|
  {
    if fs != [] {
      var es1 := InitOne(es, fs[0]);
      InitOneStarts(es, fs[0], fs, fields, ids);
      InitOneReads(es, fs[0], fs, fields, ids, id);
      TailFields(es, es1, fs, fields, ids);
      InitReads(es1, fs[1..], fields, ids, id);
    }
  }

  /** Some of the fields has the id. */
  predicate HasField(fs: seq<BudgetField>, id: string) {
    fs != [] && (fs[0].id == id || HasField(fs[1..], id))
  }

  lemma CopyOneReads(es: seq<Answer>, f: BudgetField, application: Application, fs: seq<BudgetField>, fields: set<string>, ids: set<string>, id: string)
    requires FieldsOk(es, fs, fields, ids) && fs != [] && f == fs[0] && id in ids
    ensures var r, text := CopyOne(es, f, application), TextAt(application, f.id);
      && Read(r.answers, id) == (if id == f.id && text != "" then Text(text) else Read(es, id))
      && (r.did <==> text != "" && Read(es, f.id) != Text(text))
  {
    CopyOneCopies(es, f, application, fs, fields, ids);
  }

  /** Some field's answer of the application is not empty and not what is overridden. */
  predicate OutOfDate(es: seq<Answer>, fs: seq<BudgetField>, application: Application) {
    exists i :: 0 <= i < |fs| && TextAt(application, fs[i].id) != "" && Read(es, fs[i].id) != Text(TextAt(application, fs[i].id))
  }

  lemma FirstOutOfDate(es: seq<Answer>, fs: seq<BudgetField>, application: Application)
    requires fs != []
    ensures OutOfDate(es, fs, application) <==>
      (TextAt(application, fs[0].id) != "" && Read(es, fs[0].id) != Text(TextAt(application, fs[0].id))) ||
      OutOfDate(es, fs[1..], application)
  {
    assert forall i | 0 <= i < |fs[1..]| :: fs[1..][i] == fs[i + 1];
    if OutOfDate(es, fs, application) {
      var i :| 0 <= i < |fs| && TextAt(application, fs[i].id) != "" && Read(es, fs[i].id) != Text(TextAt(application, fs[i].id));
      if i > 0 { assert fs[1..][i - 1] == fs[i]; }
    }
    if OutOfDate(es, fs[1..], application) {
      var i :| 0 <= i < |fs[1..]| && TextAt(application, fs[1..][i].id) != "" && Read(es, fs[1..][i].id) != Text(TextAt(application, fs[1..][i].id));
      assert fs[i + 1] == fs[1..][i];
    }
  }

  lemma SameOutOfDate(es: seq<Answer>, es1: seq<Answer>, fs: seq<BudgetField>, application: Application, id: string, text: string)
    requires text == TextAt(application, id) && text != "" && Read(es1, id) == Text(text)
    requires forall i | 0 <= i < |fs| && fs[i].id != id :: Read(es1, fs[i].id) == Read(es, fs[i].id)
    ensures OutOfDate(es1, fs, application) ==> OutOfDate(es, fs, application)
  {
    if OutOfDate(es1, fs, application) {
      var i :| 0 <= i < |fs| && TextAt(application, fs[i].id) != "" && Read(es1, fs[i].id) != Text(TextAt(application, fs[i].id));
      assert fs[i].id != id;
    }
  }

  /** What copying reads afterwards, and when it reports an update. */
  lemma {:induction false} CopiesRead(es: seq<Answer>, fs: seq<BudgetField>, application: Application, fields: set<string>, ids: set<string>, id: string)
    requires FieldsOk(es, fs, fields, ids) && id in ids
    ensures var r := WriteChangedAnswers(es, fs, application);
      && Read(r.answers, id) == (if HasField(fs, id) && TextAt(application, id) != "" then Text(TextAt(application, id)) else Read(es, id))
      && (r.did <==> OutOfDate(es, fs, application))
    decreases |fs|
  {
    if fs != [] {
      var es1 := CopyOne(es, fs[0], application).answers;
      CopyOneCopies(es, fs[0], application, fs, fields, ids);
      CopyOneReads(es, fs[0], application, fs, fields, ids, id);
      TailFields(es, es1, fs, fields, ids);
      CopiesRead(es1, fs[1..], application, fields, ids, id);
      FirstOutOfDate(es, fs, application);
      CopiedOutOfDate(es, es1, fs, application, fields, ids);
    }
  }

  lemma CopiedOutOfDate(es: seq<Answer>, es1: seq<Answer>, fs: seq<BudgetField>, application: Application, fields: set<string>, ids: set<string>)
    requires FieldsOk(es, fs, fields, ids) && fs != [] && es1 == CopyOne(es, fs[0], application).answers
    ensures var text := TextAt(application, fs[0].id);
      if text != "" && Read(es, fs[0].id) != Text(text)
      then OutOfDate(es1, fs[1..], application) ==> OutOfDate(es, fs[1..], application)
      else es1 == es
  {
    var text := TextAt(application, fs[0].id);
    if text != "" && Read(es, fs[0].id) != Text(text) {
      CopyOneCopies(es, fs[0], application, fs, fields, ids);
      forall i | 0 <= i < |fs[1..]| && fs[1..][i].id != fs[0].id ensures Read(es1, fs[1..][i].id) == Read(es, fs[1..][i].id) {
        assert fs[1..][i] == fs[i + 1] && fs[i + 1].id in FieldIdsOf(fs);
      }
      SameOutOfDate(es, es1, fs[1..], application, fs[0].id, text);
    }
  }

  /** A run over the budget, field by field: a copied field reads the application's answer,
      if that is not empty; an empty field its initial value; every other one as before. It
      reports an update exactly when some answer to copy is out of date. */
  lemma BudgetReads(es: seq<Answer>, b: BudgetSpec, application: Application, ids: set<string>, id: string)
    requires BudgetOk(es, b, ids) && id in ids
    ensures var r := BudgetValues(es, b, application);
      && Read(r.answers, id) ==
           (if HasField(b.copied, id) && TextAt(application, id) != "" then Text(TextAt(application, id)) else ReadStarted(es, b.fields, id))
      && (r.did <==> OutOfDate(InitDefaultValues(es, b.fields), b.copied, application))
  {
    var fields, started := BudgetIds(b), InitDefaultValues(es, b.fields);
    InitStarts(es, b.fields, fields, ids);
    InitReads(es, b.fields, fields, ids, id);
    StillTyped(es, started, fields, ids);
    CopiesRead(started, b.copied, application, fields, ids, id);
  }

  /** A run over the budget settles it and leaves everything else as it was. */
  lemma BudgetSettles(es: seq<Answer>, b: BudgetSpec, application: Application, ids: set<string>)
    requires BudgetOk(es, b, ids)
    ensures var es1 := BudgetValues(es, b, application).answers;
      OnlyTexts(es, es1, BudgetIds(b), ids) && BudgetSettled(es1, b, application) && BudgetOk(es1, b, ids)
  {
    var fields, started := BudgetIds(b), InitDefaultValues(es, b.fields);
    InitStarts(es, b.fields, fields, ids);
    StillTyped(es, started, fields, ids);
    AllAreCopied(started, b.copied, application, fields, ids);
    var es1 := BudgetValues(es, b, application).answers;
    OnlyTextsTwice(es, started, es1, fields, ids);
    StillTyped(es, es1, fields, ids);
    forall i | 0 <= i < |b.fields| ensures Started(es1, b.fields[i]) {
      assert b.fields[i].id in FieldIdsOf(b.fields);
      assert Started(started, b.fields[i]);
    }
  }

  /** On a settled budget a run reports no update, and changes nothing that is read. */
  lemma SettledBudgetIsKept(es: seq<Answer>, b: BudgetSpec, application: Application, ids: set<string>)
    requires BudgetOk(es, b, ids) && BudgetSettled(es, b, application)
    ensures var r := BudgetValues(es, b, application);
      && !r.did && OnlyTexts(es, r.answers, BudgetIds(b), ids)
      && forall id | id in ids :: Read(r.answers, id) == Read(es, id)
  {
    var started := InitDefaultValues(es, b.fields);
    InitStarts(es, b.fields, BudgetIds(b), ids);
    forall i | 0 <= i < |b.copied| ensures Copied(started, b.copied[i], application) {
      assert Copied(es, b.copied[i], application) && b.copied[i].id in FieldIdsOf(b.copied);
    }
    CopiedAreKept(started, b.copied, application);
  }

  // ------------------------------------------------------------ opening an application

  /** Budget first, then trainee days. */
  function Open(es: seq<Answer>, b: BudgetSpec, application: Application, ds: seq<Default>, composeTotal: Compose): Pass {
    var budget := BudgetValues(es, b, application);
    match TraineeDays(budget.answers, ds, composeTotal)
    case Threw => Threw
    case Pass(es2, did) => Pass(es2, budget.did || did)
  }

  ghost predicate OpenOk(es: seq<Answer>, b: BudgetSpec, ds: seq<Default>, ids: set<string>) {
    BudgetOk(es, b, ids) && CalculatorsOk(es, ds, ids) && BudgetIds(b) !! DefaultIds(ds)
  }

  lemma CalculatorsAfterBudget(es: seq<Answer>, es1: seq<Answer>, b: BudgetSpec, ds: seq<Default>, ids: set<string>)
    requires OpenOk(es, b, ds, ids) && OnlyTexts(es, es1, BudgetIds(b), ids)
    ensures CalculatorsOk(es1, ds, ids)
  {
    forall i | 0 <= i < |es1| && es1[i].key in DefaultIds(ds) ensures es1[i].fieldType == CALCULATOR {
      if es1[i] in es { var j :| 0 <= j < |es| && es[j] == es1[i]; }
    }
  }

  lemma NotACalculator(es: seq<Answer>, b: BudgetSpec, ids: set<string>, id: string)
    requires BudgetOk(es, b, ids) && id in BudgetIds(b)
    ensures id !in KeysOf(es, CALCULATOR)
  {
  }

  lemma BudgetAfterTraineeDays(es: seq<Answer>, es1: seq<Answer>, b: BudgetSpec, application: Application, ds: seq<Default>, ids: set<string>, composeTotal: Compose)
    requires OpenOk(es, b, ds, ids) && BudgetSettled(es, b, application)
    requires TraineeDays(es, ds, composeTotal).Pass? && es1 == TraineeDays(es, ds, composeTotal).answers
    ensures BudgetSettled(es1, b, application) && BudgetOk(es1, b, ids)
  {
    RunConverges(es, ds, composeTotal, ids);
    forall id | id in BudgetIds(b) ensures Read(es1, id) == Read(es, id) { NotACalculator(es, b, ids, id); }
    forall i | 0 <= i < |b.fields| ensures Started(es1, b.fields[i]) {
      assert Started(es, b.fields[i]) && b.fields[i].id in FieldIdsOf(b.fields);
    }
    forall i | 0 <= i < |b.copied| ensures Copied(es1, b.copied[i], application) {
      assert Copied(es, b.copied[i], application) && b.copied[i].id in FieldIdsOf(b.copied);
    }
    forall i | 0 <= i < |es1| && es1[i].key in BudgetIds(b) ensures es1[i].fieldType != CALCULATOR {
      assert es1[i].fieldType == CALCULATOR ==> es1[i].key in KeysOf(es1, CALCULATOR);
    }
  }

  /** Opening an application converges: a second opening reports no update and changes
      nothing that is read, and after the first the overridden calculators are exactly
      the application's. */
  lemma OpeningConverges(es: seq<Answer>, b: BudgetSpec, application: Application, ds: seq<Default>, composeTotal: Compose, ids: set<string>)
    requires OpenOk(es, b, ds, ids) && Open(es, b, application, ds, composeTotal).Pass?
    requires forall k | 0 <= k < |ds| :: ds[k].value != Text("")
    ensures var first := Open(es, b, application, ds, composeTotal).answers;
      var second := Open(first, b, application, ds, composeTotal);
      && KeysOf(first, CALCULATOR) == DefaultIds(ds)
      && second.Pass? && !second.did
      && forall id | id in ids :: Read(second.answers, id) == Read(first, id)
  {
    BudgetSettles(es, b, application, ids);
    var budget := BudgetValues(es, b, application).answers;
    CalculatorsAfterBudget(es, budget, b, ds, ids);
    RunConverges(budget, ds, composeTotal, ids);
    var first := TraineeDays(budget, ds, composeTotal).answers;
    BudgetAfterTraineeDays(budget, first, b, application, ds, ids, composeTotal);
    SettledBudgetIsKept(first, b, application, ids);
    var again := BudgetValues(first, b, application).answers;
    forall k | 0 <= k < |ds| ensures Settled(again, ds[k], composeTotal) && Read(again, ds[k].id) != Text("") {
      assert Settled(first, ds[k], composeTotal) && ds[k].id in DefaultIds(ds);
    }
    SettledAreKept(again, ds, composeTotal);
  }

  // ------------------------------------------------------------------------ types

  function TypeOf(es: seq<Answer>, id: string): Option<string> {
    if es == [] then None else if es[0].key == id then Some(es[0].fieldType) else TypeOf(es[1..], id)
  }

  /** Answers have the types of their fields. */
  ghost predicate TypedAs(es: seq<Answer>, types: TextMap) {
    forall id | id in types && TypeOf(es, id).Some? :: TypeOf(es, id).value == types[id]
  }

  ghost predicate FieldsTyped(fs: seq<BudgetField>, types: TextMap) {
    forall i | 0 <= i < |fs| :: fs[i].id in types && types[fs[i].id] == fs[i].fieldType
  }

  ghost predicate CalculatorsTyped(ds: seq<Default>, types: TextMap) {
    forall i | 0 <= i < |ds| :: ds[i].id in types && types[ds[i].id] == "vaTraineeDayCalculator"
  }

  lemma {:induction false} TypeAfterWrite(es: seq<Answer>, id: string, value: Value, fieldType: string, other: string)
    ensures TypeOf(Write(es, id, value, fieldType), other) ==
      if TypeOf(es, other).None? && other == id then Some(fieldType) else TypeOf(es, other)
  {
    if es != [] && es[0].key != id { TypeAfterWrite(es[1..], id, value, fieldType, other); }
  }

  lemma WriteKeepsTypes(es: seq<Answer>, id: string, value: Value, fieldType: string, types: TextMap)
    requires TypedAs(es, types) && id in types && types[id] == fieldType
    ensures TypedAs(Write(es, id, value, fieldType), types)
  {
    forall other | other in types && TypeOf(Write(es, id, value, fieldType), other).Some?
      ensures TypeOf(Write(es, id, value, fieldType), other).value == types[other]
    {
      TypeAfterWrite(es, id, value, fieldType, other);
    }
  }

  lemma {:induction false} TypeAfterDeleting(es: seq<Answer>, keys: set<string>, id: string)
    ensures TypeOf(WithoutKeys(es, keys), id) == if id in keys then None else TypeOf(es, id)
  {
    if es != [] { TypeAfterDeleting(es[1..], keys, id); }
  }

  lemma DeletingKeepsTypes(es: seq<Answer>, ds: seq<Default>, types: TextMap)
    requires TypedAs(es, types)
    ensures DeleteStale(es, ds).Pass? && TypedAs(DeleteStale(es, ds).answers, types)
  {
    var stale := KeysOf(es, CALCULATOR) - DefaultIds(ds);
    forall id | id in types && TypeOf(WithoutKeys(es, stale), id).Some?
      ensures TypeOf(WithoutKeys(es, stale), id).value == types[id]
    {
      TypeAfterDeleting(es, stale, id);
    }
  }

  lemma {:induction false} InitKeepsTypes(es: seq<Answer>, fs: seq<BudgetField>, types: TextMap)
    requires TypedAs(es, types) && FieldsTyped(fs, types)
    ensures TypedAs(InitDefaultValues(es, fs), types)
    decreases |fs|
  {
    if fs != [] {
      if fs[0].initial.Some? { WriteKeepsTypes(es, fs[0].id, Text(fs[0].initial.value), fs[0].fieldType, types); }
      InitKeepsTypes(InitOne(es, fs[0]), fs[1..], types);
    }
  }

  lemma {:induction false} CopyKeepsTypes(es: seq<Answer>, fs: seq<BudgetField>, application: Application, types: TextMap)
    requires TypedAs(es, types) && FieldsTyped(fs, types)
    ensures TypedAs(WriteChangedAnswers(es, fs, application).answers, types)
    decreases |fs|
  {
    if fs != [] {
      WriteKeepsTypes(es, fs[0].id, Text(TextAt(application, fs[0].id)), fs[0].fieldType, types);
      CopyKeepsTypes(CopyOne(es, fs[0], application).answers, fs[1..], application, types);
    }
  }

  lemma OneKeepsTypes(es: seq<Answer>, d: Default, composeTotal: Compose, types: TextMap)
    requires TypedAs(es, types) && d.id in types && types[d.id] == "vaTraineeDayCalculator"
    ensures var r := AddOrUpdate(es, d, composeTotal); r.Pass? ==> TypedAs(r.answers, types)
  {
    WriteKeepsTypes(es, d.id, d.value, CALCULATOR, types);
    var renewal := Renew(Read(es, d.id), d, composeTotal);
    if renewal.Renewed? { WriteKeepsTypes(es, d.id, renewal.value, CALCULATOR, types); }
  }

  lemma {:induction false} CalculatorsKeepTypes(es: seq<Answer>, ds: seq<Default>, composeTotal: Compose, types: TextMap)
    requires TypedAs(es, types) && CalculatorsTyped(ds, types)
    ensures var r := AddOrUpdateAll(es, ds, composeTotal); r.Pass? ==> TypedAs(r.answers, types)
    decreases |ds|
  {
    if ds != [] {
      OneKeepsTypes(es, ds[0], composeTotal, types);
      var first := AddOrUpdate(es, ds[0], composeTotal);
      if first.Pass? { CalculatorsKeepTypes(first.answers, ds[1..], composeTotal, types); }
    }
  }

  /** Whatever opening an application writes has the type of its field. */
  lemma OpeningKeepsTypes(es: seq<Answer>, b: BudgetSpec, application: Application, ds: seq<Default>, composeTotal: Compose, types: TextMap)
    requires TypedAs(es, types) && FieldsTyped(b.fields, types) && FieldsTyped(b.copied, types) && CalculatorsTyped(ds, types)
    ensures var r := Open(es, b, application, ds, composeTotal); r.Pass? ==> TypedAs(r.answers, types)
  {
    InitKeepsTypes(es, b.fields, types);
    CopyKeepsTypes(InitDefaultValues(es, b.fields), b.copied, application, types);
    var budget := BudgetValues(es, b, application).answers;
    CalculatorsKeepTypes(budget, ds, composeTotal, types);
    var added := AddOrUpdateAll(budget, ds, composeTotal);
    if added.Pass? { DeletingKeepsTypes(added.answers, ds, types); }
  }

  // ------------------------------------------------- the application's calculators

  predicate StartsWith(s: string, prefix: string) {
    |prefix| <= |s| && s[..|prefix|] == prefix
  }

  /** The id of a calculator's specification up to its last dot, and without a number
      behind the last hyphen of that. */
  function IdPrefix(specId: string): string {
    var dot := LastIndexOf(specId, '.');
    var front := specId[..if dot < 0 then 0 else dot];
    var hyphen := LastIndexOf(front, '-');
    if hyphen >= 0 && hyphen + 1 < |front| && AllDigits(front[hyphen + 1..]) then front[..hyphen + 1] else front
  }

  /** An application's answers: rows of growing fieldsets, and the fieldsets themselves,
      group the answers of their fields. */
  datatype AnswerNode = Single(answer: Answer) | Group(key: string, fieldType: string, nodes: seq<AnswerNode>)

  /** The answers in all groups, in preorder. */
  function Flattened(nodes: seq<AnswerNode>): seq<Answer>
    decreases nodes
  {
    if nodes == [] then []
    else
      match nodes[0]
      case Single(answer) => [answer] + Flattened(nodes[1..])
      case Group(_, _, inside) => Flattened(inside) + Flattened(nodes[1..])
  }

  /** Somewhere in the tree, a calculator with the id is answered. */
  predicate Answered(nodes: seq<AnswerNode>, id: string)
    decreases nodes
  {
    exists i :: 0 <= i < |nodes| && AnsweredAt(nodes[i], id)
  }

  predicate AnsweredAt(node: AnswerNode, id: string)
    decreases node
  {
    match node
    case Single(answer) => answer.fieldType == CALCULATOR && answer.key == id
    case Group(_, _, inside) => Answered(inside, id)
  }

  lemma {:induction false} FlattenedCalculators(nodes: seq<AnswerNode>, id: string)
    ensures id in KeysOf(Flattened(nodes), CALCULATOR) <==> Answered(nodes, id)
    decreases nodes
  {
    if nodes != [] {
      FlattenedCalculators(nodes[1..], id);
      AnsweredFirst(nodes, id);
      match nodes[0]
      case Single(answer) =>
        KeysOfTail(Flattened(nodes), id);
        assert Flattened(nodes)[1..] == Flattened(nodes[1..]);
      case Group(_, _, inside) =>
        FlattenedCalculators(inside, id);
        KeysOfBoth(Flattened(inside), Flattened(nodes[1..]), id);
    }
  }

  lemma AnsweredFirst(nodes: seq<AnswerNode>, id: string)
    requires nodes != []
    ensures Answered(nodes, id) <==> AnsweredAt(nodes[0], id) || Answered(nodes[1..], id)
  {
    if Answered(nodes, id) {
      var i :| 0 <= i < |nodes| && AnsweredAt(nodes[i], id);
      if i > 0 { assert nodes[1..][i - 1] == nodes[i]; }
    }
    if Answered(nodes[1..], id) {
      var i :| 0 <= i < |nodes[1..]| && AnsweredAt(nodes[1..][i], id);
      assert nodes[i + 1] == nodes[1..][i];
    }
  }

  lemma {:induction false} KeysOfBoth(xs: seq<Answer>, ys: seq<Answer>, id: string)
    ensures id in KeysOf(xs + ys, CALCULATOR) <==> id in KeysOf(xs, CALCULATOR) || id in KeysOf(ys, CALCULATOR)
  {
    if xs == [] {
      assert xs + ys == ys;
    } else {
      assert (xs + ys)[1..] == xs[1..] + ys && (xs + ys)[0] == xs[0];
      KeysOfBoth(xs[1..], ys, id);
      KeysOfTail(xs, id);
      KeysOfTail(xs + ys, id);
    }
  }

  /** The prefix of a calculator in a numbered row is that of every row. */
  lemma PrefixOfRow(base: string, n: nat, name: string)
    requires Dotless(name)
    ensures IdPrefix(RowName(base, n) + "." + name) == base + "-"
  {
    var front, digits := RowName(base, n), Numeral(n);
    LastIndexOfAppended(front, '.', name);
    assert (front + "." + name)[..|front|] == front;
    assert forall i | 0 <= i < |digits| :: digits[i] != '-' by { assert AllDigits(digits); }
    LastIndexOfAppended(base, '-', digits);
    assert front == base + "-" + digits && front[|base| + 1..] == digits && front[..|base| + 1] == base + "-";
  }

  function KeysWithPrefix(answers: seq<Answer>, prefix: string): seq<string> {
    if answers == [] then []
    else
      (if answers[0].fieldType == CALCULATOR && StartsWith(answers[0].key, prefix) then [answers[0].key] else [])
      + KeysWithPrefix(answers[1..], prefix)
  }

  function CalculatorKeys(specIds: seq<string>, answers: seq<Answer>): seq<string> {
    if specIds == [] then [] else KeysWithPrefix(answers, IdPrefix(specIds[0])) + CalculatorKeys(specIds[1..], answers)
  }

  /** One default for every id, in the order in which the ids come first. */
  function DefaultsOf(ids: seq<string>, answers: seq<Answer>): (ds: seq<Default>)
    ensures DistinctIds(ds) && DefaultIds(ds) == set id | id in ids
    ensures forall k | 0 <= k < |ds| :: ds[k].value == Read(answers, ds[k].id)
  {
    if ids == [] then []
    else
      var front, last := DefaultsOf(ids[..|ids| - 1], answers), ids[|ids| - 1];
      assert ids == ids[..|ids| - 1] + [last];
      var d := Default(last, Read(answers, last));
      if last in DefaultIds(front) then front else MoreDefaults(front, d); front + [d]
  }

  lemma MoreDefaults(ds: seq<Default>, d: Default)
    requires DistinctIds(ds) && d.id !in DefaultIds(ds)
    ensures DistinctIds(ds + [d]) && DefaultIds(ds + [d]) == DefaultIds(ds) + {d.id}
  {
    var r := ds + [d];
    assert forall k | 0 <= k < |ds| :: ds[k].id in DefaultIds(ds);
    forall id ensures id in DefaultIds(r) <==> id in DefaultIds(ds) + {d.id} {
      if id in DefaultIds(ds) {
        var k :| 0 <= k < |ds| && ds[k].id == id;
        assert r[k].id == id;
      }
      if id == d.id { assert r[|ds|].id == id; }
    }
  }

  function DefaultFields(specIds: seq<string>, answers: seq<AnswerNode>): seq<Default> {
    DefaultsOf(CalculatorKeys(specIds, Flattened(answers)), Flattened(answers))
  }

  lemma {:induction false} KeysWithPrefixMean(answers: seq<Answer>, prefix: string, id: string)
    ensures id in KeysWithPrefix(answers, prefix) <==> id in KeysOf(answers, CALCULATOR) && StartsWith(id, prefix)
  {
    if answers != [] {
      KeysWithPrefixMean(answers[1..], prefix, id);
      KeysOfTail(answers, id);
    }
  }

  lemma KeysOfTail(answers: seq<Answer>, id: string)
    requires answers != []
    ensures id in KeysOf(answers, CALCULATOR) <==>
      id in KeysOf(answers[1..], CALCULATOR) || (answers[0].fieldType == CALCULATOR && answers[0].key == id)
  {
    if id in KeysOf(answers, CALCULATOR) {
      var i :| 0 <= i < |answers| && answers[i].fieldType == CALCULATOR && answers[i].key == id;
      if i > 0 { assert answers[1..][i - 1] == answers[i]; }
    }
    if id in KeysOf(answers[1..], CALCULATOR) {
      var i :| 0 <= i < |answers[1..]| && answers[1..][i].fieldType == CALCULATOR && answers[1..][i].key == id;
      assert answers[i + 1].key == id;
    }
  }

  lemma {:induction false} CalculatorKeysMean(specIds: seq<string>, answers: seq<Answer>, id: string)
    ensures id in CalculatorKeys(specIds, answers) <==>
      id in KeysOf(answers, CALCULATOR) && Belongs(specIds, id)
  {
    if specIds != [] {
      CalculatorKeysMean(specIds[1..], answers, id);
      KeysWithPrefixMean(answers, IdPrefix(specIds[0]), id);
      BelongsToFirst(specIds, id);
    }
  }

  /** The id begins as one of the specifications' ids. */
  predicate BeginsAs(id: string, specId: string) {
    StartsWith(id, IdPrefix(specId))
  }

  predicate Belongs(specIds: seq<string>, id: string) {
    exists i :: 0 <= i < |specIds| && BeginsAs(id, specIds[i])
  }

  lemma BelongsToFirst(specIds: seq<string>, id: string)
    requires specIds != []
    ensures Belongs(specIds, id) <==> BeginsAs(id, specIds[0]) || Belongs(specIds[1..], id)
  {
    var first, rest := specIds[0], specIds[1..];
    assert forall i | 0 <= i < |rest| :: rest[i] == specIds[i + 1];
    if Belongs(specIds, id) {
      var i :| 0 <= i < |specIds| && BeginsAs(id, specIds[i]);
      if i > 0 { assert BeginsAs(id, rest[i - 1]); }
    }
    if Belongs(rest, id) {
      var i :| 0 <= i < |rest| && BeginsAs(id, rest[i]);
      assert BeginsAs(id, specIds[i + 1]);
    }
  }

  /** After a run, the calculators that are overridden are those that the application
      has answered, in a row or outside, and that belong to a calculator of the form. */
  lemma OverriddenAreTheApplications(es: seq<Answer>, specIds: seq<string>, answers: seq<AnswerNode>, composeTotal: Compose, ids: set<string>, id: string)
    requires CalculatorsOk(es, DefaultFields(specIds, answers), ids)
    requires TraineeDays(es, DefaultFields(specIds, answers), composeTotal).Pass?
    ensures id in KeysOf(TraineeDays(es, DefaultFields(specIds, answers), composeTotal).answers, CALCULATOR) <==>
      Answered(answers, id) && Belongs(specIds, id)
  {
    RunConverges(es, DefaultFields(specIds, answers), composeTotal, ids);
    CalculatorKeysMean(specIds, Flattened(answers), id);
    FlattenedCalculators(answers, id);
  }

  // ------------------------------------------------------------------- in place

  /** The overridden answers of an application that is being opened. */
  class OverriddenAnswers {
    var value: seq<Answer>

    constructor (es: seq<Answer>)
      ensures value == es
    {
      value := es;
    }

    method InitDefaults(fields: seq<BudgetField>)
      modifies this
      ensures value == InitDefaultValues(old(value), fields)
    {
      for i := 0 to |fields|
        invariant InitDefaultValues(old(value), fields) == InitDefaultValues(value, fields[i..])
      {
        assert fields[i..][0] == fields[i] && fields[i..][1..] == fields[i + 1..];
        if Read(value, fields[i].id) == Text("") {
          if fields[i].initial.Some? {
            value := Write(value, fields[i].id, Text(fields[i].initial.value), fields[i].fieldType);
          }
        }
      }
    }

    method WriteChangedAnswerFieldValues(fields: seq<BudgetField>, application: Application) returns (didWrite: bool)
      modifies this
      ensures Pass(value, didWrite) == WriteChangedAnswers(old(value), fields, application)
    {
      didWrite := false;
      for i := 0 to |fields|
        invariant var rest := WriteChangedAnswers(value, fields[i..], application);
          WriteChangedAnswers(old(value), fields, application) == Pass(rest.answers, didWrite || rest.did)
      {
        assert fields[i..][0] == fields[i] && fields[i..][1..] == fields[i + 1..];
        var newValue := TextAt(application, fields[i].id);
        if Text(newValue) != Read(value, fields[i].id) && newValue != "" {
          value := Write(value, fields[i].id, Text(newValue), fields[i].fieldType);
          didWrite := true;
        }
      }
    }

    method MutateDefaultBudgetValues(b: BudgetSpec, application: Application) returns (didUpdate: bool)
      modifies this
      ensures Pass(value, didUpdate) == BudgetValues(old(value), b, application)
    {
      InitDefaults(b.fields);
      didUpdate := WriteChangedAnswerFieldValues(b.copied, application);
    }

    method AddNewAndUpdateOutdated(ds: seq<Default>, composeTotal: Compose) returns (didUpdate: bool, thrown: bool)
      modifies this
      ensures AddOrUpdateAll(old(value), ds, composeTotal) == if thrown then Threw else Pass(value, didUpdate)
    {
      didUpdate, thrown := false, false;
      for i := 0 to |ds|
        invariant var rest := AddOrUpdateAll(value, ds[i..], composeTotal);
          AddOrUpdateAll(old(value), ds, composeTotal) ==
            if rest.Threw? then Threw else Pass(rest.answers, didUpdate || rest.did)
      {
        assert ds[i..][0] == ds[i] && ds[i..][1..] == ds[i + 1..];
        var oldValue := Read(value, ds[i].id);
        if oldValue == Text("") {
          value := Write(value, ds[i].id, ds[i].value, CALCULATOR);
          didUpdate := true;
        } else {
          match Renew(oldValue, ds[i], composeTotal) {
            case Kept =>
            case Failed => return didUpdate, true;
            case Renewed(newValue) =>
              value := Write(value, ds[i].id, newValue, CALCULATOR);
              didUpdate := true;
          }
        }
      }
    }

    method DeleteStaleAnswers(ds: seq<Default>) returns (deleted: bool)
      modifies this
      ensures Pass(value, deleted) == DeleteStale(old(value), ds)
    {
      var stale := KeysOf(value, CALCULATOR) - DefaultIds(ds);
      if stale == {} { return false; }
      value := WithoutKeys(value, stale);
      return true;
    }

    method MutateDefaultTraineeDayValues(specIds: seq<string>, answers: seq<AnswerNode>, composeTotal: Compose)
        returns (didUpdate: bool, thrown: bool)
      modifies this
      ensures TraineeDays(old(value), DefaultFields(specIds, answers), composeTotal) ==
        if thrown then Threw else Pass(value, didUpdate)
    {
      var ds := DefaultFields(specIds, answers);
      didUpdate, thrown := AddNewAndUpdateOutdated(ds, composeTotal);
      if thrown { return; }
      var deleted := DeleteStaleAnswers(ds);
      didUpdate := didUpdate || deleted;
    }
  }
}
