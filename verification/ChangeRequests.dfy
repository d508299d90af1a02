/** The budget and the project end date in force after decisions on change requests. */
module ChangeRequests {
  import opened Options

  datatype Decision = Undecided | Accepted | AcceptedWithChanges | Rejected

  datatype Item = Item(name: string, amount: int)

  type Budget = seq<Item>

  /** A change request; createdAt is its place in the order of creation. A date is None
      where the source leaves it undefined. */
  datatype Request = Request(
    createdAt: int,
    budgetDecision: Decision, decidedBudget: Budget,
    wantsMoreTime: bool, timeDecision: Decision, appliedEnd: Option<string>, decidedEnd: Option<string>)

  predicate IsAccepted(d: Decision) {
    d.Accepted? || d.AcceptedWithChanges?
  }

  predicate ChangesBudget(m: Request) {
    m.decidedBudget != [] && IsAccepted(m.budgetDecision)
  }

  predicate ChangesEnd(m: Request) {
    IsAccepted(m.timeDecision) && m.wantsMoreTime
  }

  // --------------------------------------------------------------- as the code does

  function InsertDescending(m: Request, ms: seq<Request>): seq<Request> {
    if ms == [] || m.createdAt > ms[0].createdAt then [m] + ms
    else [ms[0]] + InsertDescending(m, ms[1..])
  }

  function SortByCreatedAtDescending(ms: seq<Request>): seq<Request> {
    if ms == [] then [] else InsertDescending(ms[0], SortByCreatedAtDescending(ms[1..]))
  }

  function CreatedBefore(ms: seq<Request>, before: Option<Request>): seq<Request> {
    if ms == [] then []
    else if before.Some? && ms[0].createdAt >= before.value.createdAt then CreatedBefore(ms[1..], before)
    else [ms[0]] + CreatedBefore(ms[1..], before)
  }

  function AcceptedBudgets(ms: seq<Request>): seq<Budget> {
    if ms == [] then []
    else (if ChangesBudget(ms[0]) then [ms[0].decidedBudget] else []) + AcceptedBudgets(ms[1..])
  }

  function GetTalousarvio(ms: seq<Request>, original: Option<Budget>, before: Option<Request>): Budget {
    var accepted := AcceptedBudgets(CreatedBefore(SortByCreatedAtDescending(ms), before));
    if accepted != [] then accepted[0] else if original.Some? then original.value else []
  }

  function AcceptedEnds(ms: seq<Request>): seq<Request> {
    if ms == [] then []
    else (if ChangesEnd(ms[0]) then [ms[0]] else []) + AcceptedEnds(ms[1..])
  }

  function EndOf(m: Request): Option<string> {
    if m.timeDecision.AcceptedWithChanges? then m.decidedEnd else m.appliedEnd
  }

  /** None when no request has moved the end; Some(None) stands for an invalid moment. */
  function GetLatestProjectEndDate(ms: seq<Request>): Option<Option<string>> {
    var accepted := AcceptedEnds(ms);
    if accepted == [] then None
    else
      SortKeepsElements(accepted);
      assert |multiset(SortByCreatedAtDescending(accepted))| == |multiset(accepted)|;
      Some(EndOf(SortByCreatedAtDescending(accepted)[0]))
  }

  function GetProjectEndMoment(original: Option<string>, ms: Option<seq<Request>>, before: Option<Request>): Option<string> {
    if ms.None? then original
    else
      var latest := GetLatestProjectEndDate(CreatedBefore(ms.value, before));
      if latest.Some? then latest.value else original
  }

  // -------------------------------------------------------------- as it is decided

  /** One decision after another, in the order of creation. An accepted request puts the
      decided budget in force, if there is one. */
  function BudgetAfter(budget: Budget, m: Request): Budget {
    match m.budgetDecision
    case Undecided => budget
    case Rejected => budget
    case Accepted => if |m.decidedBudget| > 0 then m.decidedBudget else budget
    case AcceptedWithChanges => if |m.decidedBudget| > 0 then m.decidedBudget else budget
  }

  /** A request for more time moves the end to what was applied for, or, when it was
      accepted with changes, to what was decided. */
  function EndAfter(end: Option<string>, m: Request): Option<string> {
    match m.timeDecision
    case Undecided => end
    case Rejected => end
    case Accepted => if m.wantsMoreTime then m.appliedEnd else end
    case AcceptedWithChanges => if m.wantsMoreTime then m.decidedEnd else end
  }

  function FoldBudget(budget: Budget, ms: seq<Request>): Budget {
    if ms == [] then budget else BudgetAfter(FoldBudget(budget, ms[..|ms| - 1]), ms[|ms| - 1])
  }

  function FoldEnd(end: Option<string>, ms: seq<Request>): Option<string> {
    if ms == [] then end else EndAfter(FoldEnd(end, ms[..|ms| - 1]), ms[|ms| - 1])
  }

  predicate Ascending(ms: seq<Request>) {
    forall i, j | 0 <= i < j < |ms| :: ms[i].createdAt < ms[j].createdAt
  }

  predicate Descending(ms: seq<Request>) {
    forall i, j | 0 <= i < j < |ms| :: ms[i].createdAt > ms[j].createdAt
  }

  /** The requests in the order of creation; there is one such order if and only if no
      two were created at the same time. */
  predicate InOrder(asc: seq<Request>, ms: seq<Request>) {
    Ascending(asc) && multiset(asc) == multiset(ms)
  }

  // --------------------------------------------------------------------- sorting

  lemma {:induction false} InsertKeepsElements(m: Request, ms: seq<Request>)
    ensures multiset(InsertDescending(m, ms)) == multiset(ms) + multiset{m}
  {
    if ms != [] && m.createdAt <= ms[0].createdAt {
      InsertKeepsElements(m, ms[1..]);
      assert ms == [ms[0]] + ms[1..];
    }
  }

  lemma {:induction false} SortKeepsElements(ms: seq<Request>)
    ensures multiset(SortByCreatedAtDescending(ms)) == multiset(ms)
  {
    if ms != [] {
      SortKeepsElements(ms[1..]);
      InsertKeepsElements(ms[0], SortByCreatedAtDescending(ms[1..]));
      assert ms == [ms[0]] + ms[1..];
    }
  }

  ghost predicate Distinct(ms: seq<Request>) {
    forall i, j | 0 <= i < j < |ms| :: ms[i].createdAt != ms[j].createdAt
  }

  lemma {:induction false} InsertSorts(m: Request, ms: seq<Request>)
    requires Descending(ms) && forall i | 0 <= i < |ms| :: ms[i].createdAt != m.createdAt
    ensures Descending(InsertDescending(m, ms))
  {
    if ms != [] && m.createdAt < ms[0].createdAt {
      InsertSorts(m, ms[1..]);
      var r := InsertDescending(m, ms[1..]);
      InsertKeepsElements(m, ms[1..]);
      forall i | 0 <= i < |r| ensures r[i].createdAt < ms[0].createdAt {
        assert r[i] in multiset(r);
        assert r[i] == m || r[i] in ms[1..];
      }
    }
  }

  lemma {:induction false} SortSorts(ms: seq<Request>)
    requires Distinct(ms)
    ensures Descending(SortByCreatedAtDescending(ms))
  {
    if ms != [] {
      SortSorts(ms[1..]);
      var r := SortByCreatedAtDescending(ms[1..]);
      SortKeepsElements(ms[1..]);
      forall i | 0 <= i < |r| ensures r[i].createdAt != ms[0].createdAt {
        assert r[i] in multiset(r);
        assert r[i] in ms[1..];
      }
      InsertSorts(ms[0], r);
    }
  }

  function Reversed(ms: seq<Request>): seq<Request> {
    if ms == [] then [] else [ms[|ms| - 1]] + Reversed(ms[..|ms| - 1])
  }

  lemma {:induction false} ReversedElements(ms: seq<Request>)
    ensures multiset(Reversed(ms)) == multiset(ms)
  {
    if ms != [] {
      ReversedElements(ms[..|ms| - 1]);
      assert ms == ms[..|ms| - 1] + [ms[|ms| - 1]];
    }
  }

  lemma {:induction false} ReversedAt(ms: seq<Request>, i: nat)
    requires i < |ms|
    ensures |Reversed(ms)| == |ms| && Reversed(ms)[i] == ms[|ms| - 1 - i]
  {
    if i > 0 { ReversedAt(ms[..|ms| - 1], i - 1); } else if |ms| > 1 { ReversedAt(ms[..|ms| - 1], 0); }
  }

  lemma ReversedOrder(ms: seq<Request>)
    ensures Ascending(ms) ==> Descending(Reversed(ms))
    ensures Descending(ms) ==> Ascending(Reversed(ms))
  {
    forall i | 0 <= i < |ms| ensures |Reversed(ms)| == |ms| && Reversed(ms)[i] == ms[|ms| - 1 - i] { ReversedAt(ms, i); }
  }

  /** Descending lists of the same requests are equal. */
  lemma {:induction false} OneOrder(xs: seq<Request>, ys: seq<Request>)
    requires Descending(xs) && Descending(ys) && multiset(xs) == multiset(ys)
    ensures xs == ys
  {
    assert |xs| == |multiset(xs)| == |multiset(ys)| == |ys|;
    if xs != [] {
      SameFirst(xs, ys);
      TailElements(xs);
      TailElements(ys);
      OneOrder(xs[1..], ys[1..]);
      assert xs == [xs[0]] + xs[1..] && ys == [ys[0]] + ys[1..];
    }
  }

  lemma SameFirst(xs: seq<Request>, ys: seq<Request>)
    requires xs != [] && ys != [] && Descending(xs) && Descending(ys) && multiset(xs) == multiset(ys)
    ensures xs[0] == ys[0]
  {
    assert xs[0] in multiset(ys) && ys[0] in multiset(xs);
    assert xs[0] in ys && ys[0] in xs;
  }

  lemma TailElements(xs: seq<Request>)
    requires xs != []
    ensures multiset(xs[1..]) == multiset(xs) - multiset{xs[0]}
  {
    assert xs == [xs[0]] + xs[1..];
  }

  lemma OrderMeansDistinct(asc: seq<Request>, ms: seq<Request>)
    requires InOrder(asc, ms)
    ensures Distinct(ms)
  {
    forall i, j | 0 <= i < j < |ms| ensures ms[i].createdAt != ms[j].createdAt {
      SameTimeSameRequest(asc, ms, ms[i], ms[j]);
      AtMostOnce(asc, ms[i]);
      CountedTwice(ms, i, j);
    }
  }

  lemma SameTimeSameRequest(asc: seq<Request>, ms: seq<Request>, m: Request, other: Request)
    requires InOrder(asc, ms) && m in ms && other in ms
    ensures m.createdAt == other.createdAt ==> m == other
  {
    assert m in multiset(asc) && other in multiset(asc);
    assert m in asc && other in asc;
  }

  lemma CountedTwice(ms: seq<Request>, i: nat, j: nat)
    requires i < j < |ms|
    ensures ms[i] == ms[j] ==> multiset(ms)[ms[i]] >= 2
  {
    assert ms == ms[..j] + [ms[j]] + ms[j + 1..];
    assert ms[..j][i] == ms[i];
    assert ms[i] in multiset(ms[..j]);
  }

  lemma {:induction false} AtMostOnce(asc: seq<Request>, m: Request)
    requires Ascending(asc)
    ensures multiset(asc)[m] <= 1
  {
    if asc != [] {
      var front := asc[..|asc| - 1];
      AtMostOnce(front, m);
      assert asc == front + [asc[|asc| - 1]];
      if m == asc[|asc| - 1] { assert m !in front; }
    }
  }

  lemma SortedIsReversed(asc: seq<Request>, ms: seq<Request>)
    requires InOrder(asc, ms)
    ensures SortByCreatedAtDescending(ms) == Reversed(asc)
  {
    OrderMeansDistinct(asc, ms);
    SortKeepsElements(ms);
    SortSorts(ms);
    ReversedElements(asc);
    ReversedOrder(asc);
    OneOrder(SortByCreatedAtDescending(ms), Reversed(asc));
  }

  // -------------------------------------------------------------------- the fold

  lemma {:induction false} BeforeAppend(xs: seq<Request>, ys: seq<Request>, before: Option<Request>)
    ensures CreatedBefore(xs + ys, before) == CreatedBefore(xs, before) + CreatedBefore(ys, before)
  {
    if xs == [] { assert xs + ys == ys; } else {
      assert (xs + ys)[1..] == xs[1..] + ys;
      BeforeAppend(xs[1..], ys, before);
    }
  }

  lemma ReversedPush(ms: seq<Request>, m: Request)
    ensures Reversed(ms + [m]) == [m] + Reversed(ms)
  {
    assert (ms + [m])[..|ms|] == ms;
  }

  lemma {:induction false} BeforeReversed(asc: seq<Request>, before: Option<Request>)
    ensures CreatedBefore(Reversed(asc), before) == Reversed(CreatedBefore(asc, before))
  {
    if asc != [] {
      var front, last := asc[..|asc| - 1], asc[|asc| - 1];
      BeforeReversed(front, before);
      assert asc == front + [last];
      ReversedPush(front, last);
      BeforeAppend(front, [last], before);
      BeforeAppend([last], Reversed(front), before);
      var earlier, kept := CreatedBefore(front, before), CreatedBefore([last], before);
      assert CreatedBefore(Reversed(asc), before) == kept + Reversed(earlier);
      assert CreatedBefore(asc, before) == earlier + kept;
      ReversedPush(earlier, last);
      KeptOrNot(last, before);
      if kept == [] { assert earlier + kept == earlier && kept + Reversed(earlier) == Reversed(earlier); }
    }
  }

  lemma KeptOrNot(m: Request, before: Option<Request>)
    ensures CreatedBefore([m], before) == [m] || CreatedBefore([m], before) == []
  {
  }

  lemma {:induction false} FirstAcceptedIsLast(asc: seq<Request>, original: Budget)
    ensures FoldBudget(original, asc) ==
      if AcceptedBudgets(Reversed(asc)) != [] then AcceptedBudgets(Reversed(asc))[0] else original
  {
    if asc != [] {
      var front := asc[..|asc| - 1];
      FirstAcceptedIsLast(front, original);
      assert Reversed(asc)[0] == asc[|asc| - 1] && Reversed(asc)[1..] == Reversed(front);
      assert AcceptedBudgets(Reversed(asc)) ==
        (if ChangesBudget(asc[|asc| - 1]) then [asc[|asc| - 1].decidedBudget] else []) + AcceptedBudgets(Reversed(front));
    }
  }

  /** The budget in force is what the accepted requests, one after another in the order
      of creation, have made of the original one; the order of the list does not matter. */
  lemma BudgetIsFold(ms: seq<Request>, asc: seq<Request>, original: Option<Budget>, before: Option<Request>)
    requires InOrder(asc, ms)
    ensures GetTalousarvio(ms, original, before) ==
      FoldBudget(if original.Some? then original.value else [], CreatedBefore(asc, before))
  {
    SortedIsReversed(asc, ms);
    BeforeReversed(asc, before);
    FirstAcceptedIsLast(CreatedBefore(asc, before), if original.Some? then original.value else []);
  }

  lemma {:induction false} EndsAppend(xs: seq<Request>, ys: seq<Request>)
    ensures AcceptedEnds(xs + ys) == AcceptedEnds(xs) + AcceptedEnds(ys)
  {
    if xs == [] { assert xs + ys == ys; } else {
      assert (xs + ys)[1..] == xs[1..] + ys;
      EndsAppend(xs[1..], ys);
      var first := if ChangesEnd(xs[0]) then [xs[0]] else [];
      assert AcceptedEnds(xs + ys) == first + AcceptedEnds(xs[1..] + ys);
      assert AcceptedEnds(xs) == first + AcceptedEnds(xs[1..]);
    }
  }

  lemma {:induction false} KeptCounts(ms: seq<Request>, before: Option<Request>, m: Request)
    ensures multiset(AcceptedEnds(CreatedBefore(ms, before)))[m] ==
      if ChangesEnd(m) && (before.None? || m.createdAt < before.value.createdAt) then multiset(ms)[m] else 0
  {
    if ms == [] {
      assert multiset(ms)[m] == 0;
    } else {
      var first, rest := ms[0], ms[1..];
      assert ms == [first] + rest;
      KeptCount(first, rest, before, m);
      CountFirst(first, rest, m);
      KeptCounts(rest, before, m);
    }
  }

  lemma KeptCount(first: Request, rest: seq<Request>, before: Option<Request>, m: Request)
    ensures multiset(AcceptedEnds(CreatedBefore([first] + rest, before)))[m] ==
      multiset(AcceptedEnds(CreatedBefore(rest, before)))[m] +
      if m == first && ChangesEnd(m) && (before.None? || m.createdAt < before.value.createdAt) then 1 else 0
  {
    assert ([first] + rest)[1..] == rest;
    if before.None? || first.createdAt < before.value.createdAt {
      assert CreatedBefore([first] + rest, before) == [first] + CreatedBefore(rest, before);
      AcceptedCount(first, CreatedBefore(rest, before), m);
    }
  }

  lemma AcceptedCount(first: Request, rest: seq<Request>, m: Request)
    ensures multiset(AcceptedEnds([first] + rest))[m] ==
      multiset(AcceptedEnds(rest))[m] + if m == first && ChangesEnd(m) then 1 else 0
  {
    assert ([first] + rest)[1..] == rest;
    if ChangesEnd(first) {
      CountFirst(first, AcceptedEnds(rest), m);
    } else {
      assert AcceptedEnds([first] + rest) == [] + AcceptedEnds(rest);
    }
  }

  lemma CountFirst(first: Request, rest: seq<Request>, m: Request)
    ensures multiset([first] + rest)[m] == multiset(rest)[m] + if m == first then 1 else 0
  {
  }

  lemma {:induction false} KeptAscend(ms: seq<Request>, before: Option<Request>)
    requires Ascending(ms)
    ensures Ascending(AcceptedEnds(CreatedBefore(ms, before)))
  {
    if ms != [] {
      KeptAscend(ms[1..], before);
      var rest := AcceptedEnds(CreatedBefore(ms[1..], before));
      forall m | m in rest ensures ms[0].createdAt < m.createdAt { KeptAreGiven(ms[1..], before, m); }
      AscendingBehind(ms[0], rest);
      KeptFirst(ms, before);
    }
  }

  lemma KeptAreGiven(ms: seq<Request>, before: Option<Request>, m: Request)
    requires m in AcceptedEnds(CreatedBefore(ms, before))
    ensures m in ms
  {
    KeptCounts(ms, before, m);
    assert m in multiset(AcceptedEnds(CreatedBefore(ms, before)));
    assert m in multiset(ms);
  }

  lemma AscendingBehind(first: Request, rest: seq<Request>)
    requires Ascending(rest) && forall m | m in rest :: first.createdAt < m.createdAt
    ensures Ascending([first] + rest)
  {
    var all := [first] + rest;
    forall i, j | 0 <= i < j < |all| ensures all[i].createdAt < all[j].createdAt {
      assert all[j] == rest[j - 1];
      if i > 0 { assert all[i] == rest[i - 1]; }
    }
  }

  lemma KeptFirst(ms: seq<Request>, before: Option<Request>)
    requires ms != []
    ensures var kept, rest := AcceptedEnds(CreatedBefore(ms, before)), AcceptedEnds(CreatedBefore(ms[1..], before));
      kept == rest || kept == [ms[0]] + rest
  {
    var rest := CreatedBefore(ms[1..], before);
    assert ([ms[0]] + rest)[1..] == rest;
  }

  lemma {:induction false} FoldOfAccepted(asc: seq<Request>, end: Option<string>)
    ensures FoldEnd(end, asc) ==
      if AcceptedEnds(asc) == [] then end else EndOf(AcceptedEnds(asc)[|AcceptedEnds(asc)| - 1])
  {
    if asc != [] {
      var front, last := asc[..|asc| - 1], asc[|asc| - 1];
      FoldOfAccepted(front, end);
      EndsAppend(front, [last]);
      assert asc == front + [last];
    }
  }

  /** So is the end of the project; without a list of requests it is the original one. */
  lemma EndIsFold(ms: seq<Request>, asc: seq<Request>, original: Option<string>, before: Option<Request>)
    requires InOrder(asc, ms)
    ensures GetProjectEndMoment(original, Some(ms), before) == FoldEnd(original, CreatedBefore(asc, before))
    ensures GetProjectEndMoment(original, None, before) == original
  {
    KeptInOrder(ms, asc, before);
    FoldOfAccepted(CreatedBefore(asc, before), original);
    LatestIsLast(AcceptedEnds(CreatedBefore(ms, before)), AcceptedEnds(CreatedBefore(asc, before)));
  }

  lemma KeptInOrder(ms: seq<Request>, asc: seq<Request>, before: Option<Request>)
    requires InOrder(asc, ms)
    ensures InOrder(AcceptedEnds(CreatedBefore(asc, before)), AcceptedEnds(CreatedBefore(ms, before)))
  {
    KeptAscend(asc, before);
    forall m
      ensures multiset(AcceptedEnds(CreatedBefore(asc, before)))[m] == multiset(AcceptedEnds(CreatedBefore(ms, before)))[m]
    {
      KeptCounts(asc, before, m);
      KeptCounts(ms, before, m);
    }
  }

  lemma LatestIsLast(accepted: seq<Request>, asc: seq<Request>)
    requires InOrder(asc, accepted)
    ensures |asc| == |accepted|
    ensures asc != [] ==>
      SortByCreatedAtDescending(accepted) != [] && SortByCreatedAtDescending(accepted)[0] == asc[|asc| - 1]
  {
    assert |asc| == |multiset(asc)| == |multiset(accepted)| == |accepted|;
    SortedIsReversed(asc, accepted);
  }

  // ------------------------------------------------------------------- increments

  lemma {:induction false} BeforeIsPrefix(asc: seq<Request>, i: nat)
    requires Ascending(asc) && i < |asc|
    ensures CreatedBefore(asc, Some(asc[i])) == asc[..i]
  {
    if i == 0 {
      NoneBefore(asc, asc[0]);
    } else {
      BeforeIsPrefix(asc[1..], i - 1);
      assert asc[..i] == [asc[0]] + asc[1..][..i - 1];
    }
  }

  lemma {:induction false} NoneBefore(ms: seq<Request>, m: Request)
    requires forall i | 0 <= i < |ms| :: ms[i].createdAt >= m.createdAt
    ensures CreatedBefore(ms, Some(m)) == []
  {
    if ms != [] { NoneBefore(ms[1..], m); }
  }

  lemma {:induction false} AllBefore(ms: seq<Request>)
    ensures CreatedBefore(ms, None) == ms
  {
    if ms != [] { AllBefore(ms[1..]); }
  }

  /** The values before the next request follow from those before this one and this
      request's decision alone; after the last request they are the values in force. */
  lemma NextFollowsFromThis(ms: seq<Request>, asc: seq<Request>, budget: Option<Budget>, end: Option<string>, i: nat)
    requires InOrder(asc, ms) && i < |asc|
    ensures var next := if i + 1 < |asc| then Some(asc[i + 1]) else None;
      && GetTalousarvio(ms, budget, next) == BudgetAfter(GetTalousarvio(ms, budget, Some(asc[i])), asc[i])
      && GetProjectEndMoment(end, Some(ms), next) == EndAfter(GetProjectEndMoment(end, Some(ms), Some(asc[i])), asc[i])
  {
    var next := if i + 1 < |asc| then Some(asc[i + 1]) else None;
    BudgetIsFold(ms, asc, budget, next);
    BudgetIsFold(ms, asc, budget, Some(asc[i]));
    EndIsFold(ms, asc, end, next);
    EndIsFold(ms, asc, end, Some(asc[i]));
    BeforeIsPrefix(asc, i);
    if i + 1 < |asc| { BeforeIsPrefix(asc, i + 1); } else { AllBefore(asc); assert asc[..i + 1] == asc; }
    assert asc[..i + 1][..i] == asc[..i];
  }

  /** The list can come in any order. */
  lemma ListOrderDoesNotMatter(ms: seq<Request>, other: seq<Request>, asc: seq<Request>, budget: Option<Budget>, end: Option<string>, before: Option<Request>)
    requires InOrder(asc, ms) && multiset(ms) == multiset(other)
    ensures GetTalousarvio(ms, budget, before) == GetTalousarvio(other, budget, before)
    ensures GetProjectEndMoment(end, Some(ms), before) == GetProjectEndMoment(end, Some(other), before)
  {
    BudgetIsFold(ms, asc, budget, before);
    BudgetIsFold(other, asc, budget, before);
    EndIsFold(ms, asc, end, before);
    EndIsFold(other, asc, end, before);
  }

  /** Requests created at different times have an order of creation. */
  lemma OrderExists(ms: seq<Request>)
    requires Distinct(ms)
    ensures InOrder(Reversed(SortByCreatedAtDescending(ms)), ms)
  {
    SortKeepsElements(ms);
    SortSorts(ms);
    ReversedElements(SortByCreatedAtDescending(ms));
    ReversedOrder(SortByCreatedAtDescending(ms));
  }
}
