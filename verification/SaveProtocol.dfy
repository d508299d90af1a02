/** Autosave and submit: one client, its requests and their answers in flight in any
    order, and a server that accepts a write only against its current version. */
module SaveProtocol {
  import opened AnswerStore
  import opened Options

  type Values = seq<Entry>

  datatype Operation = AutoSave | Submit

  /** saveStatus, with the values of the session in LocalStorage, if any were stored. */
  datatype Client = Client(
    values: Values,
    changes: bool,
    saveInProgress: bool,
    serverError: string,
    version: nat,               // of the object saved last, as far as the client knows
    stored: Option<Values>,
    draftAllowed: bool)

  datatype Request = Request(base: nat, body: Values, operation: Operation)

  datatype Response =
    | Saved(version: nat, values: Values)
    | Conflict                                            // 409
    | ValidationErrors                                    // 400
    | NotAllowed                                          // 405
    | Unexpected(operation: Operation)                    // any other status, or no answer

  datatype Server = Server(version: nat, values: Values)

  datatype System = System(client: Client, server: Server, requests: multiset<Request>, responses: multiset<Response>)

  // ------------------------------------------------------------------- the client

  function StartAutoSave(c: Client): Client {
    if c.draftAllowed then c.(saveInProgress := true) else c
  }

  function OnUpdateField(c: Client, values: Values): Client {
    StartAutoSave(c.(values := values, changes := true, stored := Some(values)))
  }

  /** Removing a row does not write LocalStorage. */
  function OnRemoveField(c: Client, values: Values): Client {
    StartAutoSave(c.(values := values, changes := true))
  }

  predicate SendsOnSave(c: Client) {
    c.draftAllowed && c.changes
  }

  function UpdateOld(c: Client): Client {
    c.(saveInProgress := true)
  }

  function RequestOf(c: Client, operation: Operation): Request {
    Request(c.version, c.values, operation)
  }

  function OnSaveCompleted(c: Client, version: nat, values: Values): Client {
    var c1 := c.(changes := c.values != values, saveInProgress := false, serverError := "", version := version);
    var c2 := if c1.stored.None? then c1.(values := values, stored := Some(values)) else c1;
    if c2.changes then StartAutoSave(c2) else c2
  }

  function OnServerError(c: Client, error: string): Client {
    c.(saveInProgress := false, serverError := error)
  }

  function OnResponse(c: Client, r: Response): Client {
    match r
    case Saved(version, values) => OnSaveCompleted(c, version, values)
    case Conflict => OnServerError(c, "conflict-save-error")
    case ValidationErrors => OnServerError(c, "submit-validation-errors")
    case NotAllowed => c
    case Unexpected(Submit) => OnServerError(c, "unexpected-submit-error")
    case Unexpected(AutoSave) => StartAutoSave(OnServerError(c, "unexpected-save-error"))
  }

  /** The submit button is enabled. */
  predicate SubmitEnabled(c: Client) {
    c.draftAllowed && !(c.changes || c.saveInProgress)
  }

  // -------------------------------------------------------------------- the steps

  datatype Event =
    | EditField(values: Values)
    | RemoveRow(values: Values)
    | Timer
    | PressSubmit
    | Serve(request: Request, further: nat)               // accepted, or answered 409
    | Refuse(request: Request, answer: Response)          // answered with an error, nothing stored
    | ServeButFail(request: Request, further: nat, answer: Response)   // accepted, but the answer is an error
    | LoseRequest(request: Request)
    | LoseResponse(response: Response)
    | Deliver(response: Response)

  predicate IsError(r: Response) { !r.Saved? }

  predicate Enabled(s: System, ev: Event) {
    match ev
    case EditField(_) => true
    case RemoveRow(_) => true
    case Timer => true
    case PressSubmit => SubmitEnabled(s.client)
    case Serve(r, _) => r in s.requests
    case Refuse(r, answer) => r in s.requests && IsError(answer)
    case ServeButFail(r, _, answer) => r in s.requests && r.base == s.server.version && IsError(answer)
    case LoseRequest(r) => r in s.requests
    case LoseResponse(r) => r in s.responses
    case Deliver(r) => r in s.responses
  }

  /** An accepted write makes a new version, or more than one: a submit makes two. */
  function Accept(server: Server, r: Request, further: nat): Server {
    Server(server.version + 1 + further, r.body)
  }

  function Step(s: System, ev: Event): System {
    match ev
    case EditField(values) => s.(client := OnUpdateField(s.client, values))
    case RemoveRow(values) => s.(client := OnRemoveField(s.client, values))
    case Timer =>
      if SendsOnSave(s.client)
      then s.(client := UpdateOld(s.client), requests := s.requests + multiset{RequestOf(s.client, AutoSave)})
      else s
    case PressSubmit =>
      s.(client := UpdateOld(s.client), requests := s.requests + multiset{RequestOf(s.client, Submit)})
    case Serve(r, further) =>
      var s1, accepted := s.(requests := s.requests - multiset{r}), Accept(s.server, r, further);
      if r.base == s.server.version
      then s1.(server := accepted, responses := s.responses + multiset{Saved(accepted.version, accepted.values)})
      else s1.(responses := s.responses + multiset{Conflict})
    case Refuse(r, answer) =>
      s.(requests := s.requests - multiset{r}, responses := s.responses + multiset{answer})
    case ServeButFail(r, further, answer) =>
      s.(requests := s.requests - multiset{r}, server := Accept(s.server, r, further), responses := s.responses + multiset{answer})
    case LoseRequest(r) => s.(requests := s.requests - multiset{r})
    case LoseResponse(r) => s.(responses := s.responses - multiset{r})
    case Deliver(r) => s.(client := OnResponse(s.client, r), responses := s.responses - multiset{r})
  }

  /** A session starts with what the server has, nothing in flight and nothing stored. */
  predicate Start(s: System) {
    && s.client.values == s.server.values && s.client.version == s.server.version
    && !s.client.changes && s.client.stored.None?
    && s.requests == multiset{} && s.responses == multiset{}
  }

  predicate Possible(s: System, events: seq<Event>)
    decreases |events|
  {
    events == [] || (Enabled(s, events[0]) && Possible(Step(s, events[0]), events[1..]))
  }

  function Run(s: System, events: seq<Event>): System
    decreases |events|
  {
    if events == [] then s else Run(Step(s, events[0]), events[1..])
  }

  // -------------------------------------------------------------------- invariants

  /** The server is not behind; while it is ahead, at most one answer that tells the
      client so is in flight, and it carries the server's version and values. */
  ghost predicate VersionsOk(s: System) {
    && s.client.version <= s.server.version
    && (forall r | r in s.requests :: r.base <= s.client.version)
    && (forall r | r in s.responses && r.Saved? ::
         r == Saved(s.server.version, s.server.values) && s.client.version < s.server.version && s.responses[r] == 1)
  }

  /** Without pending changes the server has the client's values, and no request in
      flight can change that. A submit never carries anything new. */
  ghost predicate ValuesOk(s: System) {
    && (!s.client.changes ==> s.server.values == s.client.values)
    && (!s.client.changes ==> forall r | r in s.requests && r.base == s.server.version :: r.body == s.client.values)
    && (forall r | r in s.requests && r.operation == Submit && r.base == s.server.version :: r.body == s.server.values)
  }

  ghost predicate Inv(s: System) {
    VersionsOk(s) && ValuesOk(s)
  }

  lemma ServeKeepsInv(s: System, r: Request, further: nat)
    requires Inv(s) && r in s.requests
    ensures Inv(Step(s, Serve(r, further)))
  {
    if r.base == s.server.version {
      assert forall x | x in s.responses :: !x.Saved?;
    }
  }

  lemma ServeButFailKeepsInv(s: System, r: Request, further: nat, answer: Response)
    requires Inv(s) && r in s.requests && IsError(answer) && r.base == s.server.version
    ensures Inv(Step(s, ServeButFail(r, further, answer)))
  {
    assert forall x | x in s.responses :: !x.Saved?;
  }

  lemma ReceiveKeepsInv(s: System, r: Response)
    requires Inv(s) && r in s.responses
    ensures Inv(Step(s, Deliver(r)))
  {
    var s2 := Step(s, Deliver(r));
    forall x | x in s2.responses ensures x in s.responses && (r.Saved? ==> !x.Saved?) {}
  }

  lemma ClientKeepsInv(s: System, ev: Event)
    requires Inv(s) && Enabled(s, ev) && (ev.EditField? || ev.RemoveRow? || ev.Timer? || ev.PressSubmit?)
    ensures Inv(Step(s, ev))
  {
  }

  lemma NetworkKeepsInv(s: System, ev: Event)
    requires Inv(s) && Enabled(s, ev) && (ev.Refuse? || ev.LoseRequest? || ev.LoseResponse?)
    ensures Inv(Step(s, ev))
  {
  }

  /** Every step of the client, the server and the network keeps the invariant. */
  lemma StepKeepsInv(s: System, ev: Event)
    requires Inv(s) && Enabled(s, ev)
    ensures Inv(Step(s, ev))
  {
    match ev
    case EditField(_) => ClientKeepsInv(s, ev);
    case RemoveRow(_) => ClientKeepsInv(s, ev);
    case Timer => ClientKeepsInv(s, ev);
    case PressSubmit => ClientKeepsInv(s, ev);
    case Serve(r, further) => ServeKeepsInv(s, r, further);
    case ServeButFail(r, further, answer) => ServeButFailKeepsInv(s, r, further, answer);
    case Refuse(_, _) => NetworkKeepsInv(s, ev);
    case LoseRequest(_) => NetworkKeepsInv(s, ev);
    case LoseResponse(_) => NetworkKeepsInv(s, ev);
    case Deliver(r) => ReceiveKeepsInv(s, r);
  }

  lemma {:induction false} RunKeepsInv(s: System, events: seq<Event>)
    requires Inv(s) && Possible(s, events)
    ensures Inv(Run(s, events))
    decreases |events|
  {
    if events != [] {
      StepKeepsInv(s, events[0]);
      RunKeepsInv(Step(s, events[0]), events[1..]);
    }
  }

  /** Safety of the changes flag, over every interleaving of edits, saves, submits,
      answers, losses and errors: when it is off, the server has what the page shows. */
  lemma NoChangesMeansSaved(s: System, events: seq<Event>)
    requires Start(s) && Possible(s, events)
    ensures var end := Run(s, events);
      !end.client.changes ==> end.server.values == end.client.values
  {
    RunKeepsInv(s, events);
  }

  // ------------------------------------------------- completed saves and the page

  /** When a completed save leaves the values on the page alone. */
  lemma SaveCompletedKeepsValuesIff(c: Client, version: nat, values: Values)
    ensures OnSaveCompleted(c, version, values).values == c.values <==> c.stored.Some? || c.values == values
  {
  }

  /** What makes the browser's storage hold values: a field edit, or a completed save. */
  predicate StoresValues(ev: Event) {
    ev.EditField? || (ev.Deliver? && ev.response.Saved?)
  }

  predicate SomethingStores(events: seq<Event>) {
    exists i :: 0 <= i < |events| && StoresValues(events[i])
  }

  lemma StoresFirst(ev: Event, events: seq<Event>)
    ensures SomethingStores([ev] + events) <==> StoresValues(ev) || SomethingStores(events)
  {
    var all := [ev] + events;
    assert all[0] == ev;
    if SomethingStores(events) {
      var i :| 0 <= i < |events| && StoresValues(events[i]);
      assert all[i + 1] == events[i];
    }
    if SomethingStores(all) {
      var i :| 0 <= i < |all| && StoresValues(all[i]);
      if i > 0 { assert all[i] == events[i - 1]; }
    }
  }

  lemma StepStores(s: System, ev: Event)
    ensures Step(s, ev).client.stored.Some? <==> s.client.stored.Some? || StoresValues(ev)
  {
    if ev.Deliver? { ResponseStores(s.client, ev.response); }
  }

  lemma ResponseStores(c: Client, r: Response)
    ensures OnResponse(c, r).stored.Some? <==> c.stored.Some? || r.Saved?
  {
  }

  lemma {:induction false} RunStores(s: System, events: seq<Event>)
    ensures Run(s, events).client.stored.Some? <==> s.client.stored.Some? || SomethingStores(events)
    decreases |events|
  {
    if events != [] {
      assert events == [events[0]] + events[1..];
      StoresFirst(events[0], events[1..]);
      StepStores(s, events[0]);
      RunStores(Step(s, events[0]), events[1..]);
    }
  }

  lemma SavedAnswerIsTheServers(s: System, r: Response)
    requires Inv(s) && r in s.responses && r.Saved?
    ensures r == Saved(s.server.version, s.server.values)
  {
  }

  /** After any run, row removals included, a completed save leaves the page's values alone
      if and only if a field was edited, or another save completed, or the server has those
      values. */
  lemma RunKeepsValuesIff(s: System, events: seq<Event>, r: Response)
    requires Start(s) && Possible(s, events)
    requires r in Run(s, events).responses && r.Saved?
    ensures var end := Run(s, events);
      Step(end, Deliver(r)).client.values == end.client.values <==>
        SomethingStores(events) || end.server.values == end.client.values
  {
    StartIsOk(s);
    RunKeepsInv(s, events);
    RunStores(s, events);
    SavedAnswerIsTheServers(Run(s, events), r);
    SaveCompletedKeepsValuesIff(Run(s, events).client, r.version, r.values);
  }

  predicate FieldUpdatesOnly(events: seq<Event>) {
    forall ev | ev in events :: !ev.RemoveRow?
  }

  ghost predicate EditsStored(s: System) {
    s.client.changes ==> s.client.stored.Some?
  }

  lemma {:induction false} RunKeepsEditsStored(s: System, events: seq<Event>)
    requires Inv(s) && EditsStored(s) && Possible(s, events) && FieldUpdatesOnly(events)
    ensures Inv(Run(s, events)) && EditsStored(Run(s, events))
    decreases |events|
  {
    if events != [] {
      StepKeepsInv(s, events[0]);
      assert events[0] in events && forall ev | ev in events[1..] :: ev in events;
      RunKeepsEditsStored(Step(s, events[0]), events[1..]);
    }
  }

  /** While only fields are edited, no completed save ever changes the page's values. */
  lemma CompletedSavesKeepTheValues(s: System, events: seq<Event>, r: Response)
    requires Start(s) && Possible(s, events) && FieldUpdatesOnly(events)
    requires r in Run(s, events).responses
    ensures Step(Run(s, events), Deliver(r)).client.values == Run(s, events).client.values
  {
    StartIsOk(s);
    RunKeepsEditsStored(s, events);
    DeliveryKeepsValues(Run(s, events), r);
  }

  lemma StartIsOk(s: System)
    requires Start(s)
    ensures Inv(s) && EditsStored(s)
  {
  }

  lemma DeliveryKeepsValues(s: System, r: Response)
    requires Inv(s) && EditsStored(s) && r in s.responses
    ensures Step(s, Deliver(r)).client.values == s.client.values
  {
  }

  /** A removed row can come back: removals are not stored, and the answer to a save
      sent between two of them replaces the page's values. */
  lemma CompletedSaveUndoesARemoval(s: System, v1: Values, v2: Values)
    requires Start(s) && s.client.draftAllowed && v1 != v2
    ensures var saved := Saved(s.server.version + 1, v1);
      var events := [RemoveRow(v1), Timer, Serve(Request(s.client.version, v1, AutoSave), 0), RemoveRow(v2)];
      && Possible(s, events) && saved in Run(s, events).responses
      && Run(s, events).client.values == v2
      && Step(Run(s, events), Deliver(saved)).client.values == v1
  {
    var r := Request(s.client.version, v1, AutoSave);
    var e1, e2, e3, e4 := RemoveRow(v1), Timer, Serve(r, 0), RemoveRow(v2);
    RemovalIsPosted(s, v1);
    var s2 := Step(Step(s, e1), e2);
    ServedIsAnswered(s2, r);
    RemovedAgain(Step(s2, e3), Saved(s.server.version + 1, v1), v2);
    ThreeSteps(s, e1, e2, e3);
    LastStep(Step(s2, e3), e4);
    assert [e1, e2, e3] + [e4] == [e1, e2, e3, e4];
    RunsOneAfterAnother(s, [e1, e2, e3], [e4]);
  }

  lemma RemovedAgain(s: System, saved: Response, v2: Values)
    requires saved in s.responses && saved.Saved? && s.client.stored.None?
    ensures var s2 := Step(s, RemoveRow(v2));
      s2.client.values == v2 && saved in s2.responses && Step(s2, Deliver(saved)).client.values == saved.values
  {
  }

  lemma RemovalIsPosted(s: System, v1: Values)
    requires Start(s) && s.client.draftAllowed
    ensures Enabled(s, RemoveRow(v1)) && Enabled(Step(s, RemoveRow(v1)), Timer)
    ensures var s2 := Step(Step(s, RemoveRow(v1)), Timer);
      && Request(s.client.version, v1, AutoSave) in s2.requests && s2.client.stored.None? && s2.client.draftAllowed
      && s2.client.version == s.client.version == s2.server.version
  {
  }

  /** An accepted request is answered with what is stored. */
  lemma ServedIsAnswered(s: System, r: Request)
    requires r in s.requests && r.base == s.server.version
    ensures var s2 := Step(s, Serve(r, 0));
      && s2.server == Server(s.server.version + 1, r.body) && s2.client == s.client
      && Saved(s.server.version + 1, r.body) in s2.responses
  {
  }

  lemma ThreeSteps(s: System, e1: Event, e2: Event, e3: Event)
    ensures Run(s, [e1, e2, e3]) == Step(Step(Step(s, e1), e2), e3)
    ensures Possible(s, [e1, e2, e3]) <==> Enabled(s, e1) && Enabled(Step(s, e1), e2) && Enabled(Step(Step(s, e1), e2), e3)
  {
    TwoSteps(Step(s, e1), e2, e3);
    OneStep(s, e1, [e2, e3]);
    assert [e1] + [e2, e3] == [e1, e2, e3];
  }

  lemma TwoSteps(s: System, e1: Event, e2: Event)
    ensures Run(s, [e1, e2]) == Step(Step(s, e1), e2)
    ensures Possible(s, [e1, e2]) <==> Enabled(s, e1) && Enabled(Step(s, e1), e2)
  {
    LastStep(Step(s, e1), e2);
    OneStep(s, e1, [e2]);
    assert [e1] + [e2] == [e1, e2];
  }

  lemma LastStep(s: System, ev: Event)
    ensures Run(s, [ev]) == Step(s, ev) && (Possible(s, [ev]) <==> Enabled(s, ev))
  {
    OneStep(s, ev, []);
    assert [ev] + [] == [ev];
  }

  lemma OneStep(s: System, ev: Event, events: seq<Event>)
    ensures Possible(s, [ev] + events) == (Enabled(s, ev) && Possible(Step(s, ev), events))
    ensures Run(s, [ev] + events) == Run(Step(s, ev), events)
  {
    assert ([ev] + events)[1..] == events;
  }

  // --------------------------------------------------------------- lost answers

  /** The client missed that the server has moved on. */
  ghost predicate Behind(s: System) {
    s.client.version < s.server.version && forall r | r in s.responses :: !r.Saved?
  }

  lemma LosingTheAnswer(s: System, r: Response)
    requires Inv(s) && r in s.responses && r.Saved?
    ensures Inv(Step(s, LoseResponse(r))) && Behind(Step(s, LoseResponse(r)))
  {
    StepKeepsInv(s, LoseResponse(r));
  }

  lemma StepStaysBehind(s: System, ev: Event)
    requires Inv(s) && Behind(s) && Enabled(s, ev)
    ensures Behind(Step(s, ev)) && Step(s, ev).server == s.server
    ensures s.client.changes ==> Step(s, ev).client.changes
  {
    match ev
    case Deliver(r) => ErrorKeepsVersion(s.client, r);
    case Serve(r, _) => assert r.base <= s.client.version;
    case _ =>
  }

  lemma ErrorKeepsVersion(c: Client, r: Response)
    requires !r.Saved?
    ensures OnResponse(c, r).version == c.version && OnResponse(c, r).changes == c.changes
  {
  }

  /** Once the answer to an accepted save is lost, nothing is saved any more: whatever
      happens next, the server keeps its values, and an edit stays marked as unsaved. */
  lemma {:induction false} LostAnswerBlocksSaving(s: System, events: seq<Event>)
    requires Inv(s) && Behind(s) && Possible(s, events)
    ensures Behind(Run(s, events)) && Run(s, events).server == s.server
    ensures s.client.changes ==> Run(s, events).client.changes
    decreases |events|
  {
    if events != [] {
      StepKeepsInv(s, events[0]);
      StepStaysBehind(s, events[0]);
      LostAnswerBlocksSaving(Step(s, events[0]), events[1..]);
    }
  }

  /** An edit, the timer and the server. */
  function SaveEvents(c: Client, values: Values): seq<Event> {
    [EditField(values), Timer, Serve(Request(c.version, values, AutoSave), 0)]
  }

  lemma EditIsSaved(s: System, values: Values)
    requires s.client.draftAllowed && s.client.version == s.server.version
    ensures Possible(s, SaveEvents(s.client, values))
    ensures var s2, saved := Run(s, SaveEvents(s.client, values)), Saved(s.server.version + 1, values);
      && s2.server == Server(s.server.version + 1, values)
      && saved in s2.responses && s2.client.draftAllowed
  {
    var r := Request(s.client.version, values, AutoSave);
    ThreeSteps(s, EditField(values), Timer, Serve(r, 0));
    var s2 := Step(Step(s, EditField(values)), Timer);
    assert r in s2.requests && s2.server == s.server && s2.client.draftAllowed;
    ServedIsAnswered(s2, r);
  }

  lemma {:induction false} RunsOneAfterAnother(s: System, first: seq<Event>, second: seq<Event>)
    requires Possible(s, first)
    ensures Possible(s, first + second) <==> Possible(Run(s, first), second)
    ensures Run(s, first + second) == Run(Run(s, first), second)
    decreases |first|
  {
    if first == [] {
      assert first + second == second;
    } else {
      assert (first + second)[1..] == first[1..] + second;
      RunsOneAfterAnother(Step(s, first[0]), first[1..], second);
    }
  }

  /** When the client is not behind, anything can still be saved. */
  lemma AnythingCanBeSaved(s: System, values: Values) returns (events: seq<Event>)
    requires Inv(s) && s.client.draftAllowed && !Behind(s)
    ensures Possible(s, events)
    ensures Run(s, events).server.values == values && Run(s, events).server.version > s.server.version
  {
    if s.client.version == s.server.version {
      events := SaveEvents(s.client, values);
      EditIsSaved(s, values);
    } else {
      var r :| r in s.responses && r.Saved?;
      var told := Step(s, Deliver(r));
      EditIsSaved(told, values);
      events := [Deliver(r)] + SaveEvents(told.client, values);
      OneStep(s, Deliver(r), SaveEvents(told.client, values));
    }
  }

  ghost predicate CanStillSave(s: System) {
    exists events :: Possible(s, events) && Run(s, events).server != s.server
  }

  /** Saving stays possible if and only if the client has not missed a version: an accepted
      save whose answer is lost is the end of it, and nothing else is. */
  lemma SavingStaysPossibleIff(s: System)
    requires Inv(s) && s.client.draftAllowed
    ensures CanStillSave(s) <==> !Behind(s)
  {
    if Behind(s) {
      forall events | Possible(s, events) ensures Run(s, events).server == s.server { LostAnswerBlocksSaving(s, events); }
    } else {
      var events := AnythingCanBeSaved(s, s.client.values);
    }
  }

  /** From any start, a save whose answer is lost leaves the client behind. */
  lemma ALostAnswerLeavesTheClientBehind(s: System, values: Values)
    requires Start(s) && s.client.draftAllowed
    ensures var events := SaveEvents(s.client, values) + [LoseResponse(Saved(s.server.version + 1, values))];
      && Possible(s, events) && Inv(Run(s, events)) && Behind(Run(s, events)) && !CanStillSave(Run(s, events))
  {
    var first, saved := SaveEvents(s.client, values), Saved(s.server.version + 1, values);
    StartIsOk(s);
    EditIsSaved(s, values);
    RunKeepsInv(s, first);
    AnswerLost(Run(s, first), saved);
    LastStep(Run(s, first), LoseResponse(saved));
    RunsOneAfterAnother(s, first, [LoseResponse(saved)]);
  }

  lemma AnswerLost(s: System, r: Response)
    requires Inv(s) && r in s.responses && r.Saved? && s.client.draftAllowed
    ensures var lost := Step(s, LoseResponse(r));
      Enabled(s, LoseResponse(r)) && Inv(lost) && Behind(lost) && !CanStillSave(lost)
  {
    LosingTheAnswer(s, r);
    SavingStaysPossibleIff(Step(s, LoseResponse(r)));
  }

  /** A submit stores exactly what the server already had. */
  lemma SubmitStoresNothingNew(s: System, events: seq<Event>, r: Request)
    requires Start(s) && Possible(s, events)
    requires r in Run(s, events).requests && r.operation == Submit
    ensures forall further :: Step(Run(s, events), Serve(r, further)).server.values == Run(s, events).server.values
  {
    RunKeepsInv(s, events);
  }

  // --------------------------------------------------------- what the user is shown

  /** After a completed save no error is shown, and a save is in progress exactly for what
      is still unsaved; submitting is possible exactly when the server has the page's values. */
  lemma SaveCompletedMeans(c: Client, version: nat, values: Values)
    ensures var after := OnResponse(c, Saved(version, values));
      && after.serverError == "" && after.version == version && after.draftAllowed == c.draftAllowed
      && (after.changes <==> c.values != values)
      && (after.saveInProgress <==> c.draftAllowed && c.values != values)
      && (SubmitEnabled(after) <==> c.draftAllowed && c.values == values)
      && after.values == (if c.stored.None? then values else c.values)
      && after.stored == (if c.stored.None? then Some(values) else c.stored)
  {
  }

  /** An error answer touches nothing that the user entered; a save stays in progress after
      it only when an autosave failed unexpectedly, and is tried again. */
  lemma ErrorAnswerMeans(c: Client, r: Response)
    requires IsError(r) && !r.NotAllowed?
    ensures var after := OnResponse(c, r);
      && after.values == c.values && after.changes == c.changes && after.version == c.version && after.stored == c.stored
      && (after.saveInProgress <==> c.draftAllowed && r == Unexpected(AutoSave))
      && after.serverError != ""
      && (r.Conflict? <==> after.serverError == "conflict-save-error")
      && (r.ValidationErrors? <==> after.serverError == "submit-validation-errors")
      && (r == Unexpected(Submit) <==> after.serverError == "unexpected-submit-error")
      && (r == Unexpected(AutoSave) <==> after.serverError == "unexpected-save-error")
  {
  }

  /** The timer sends what is unsaved, against the version saved last, and else nothing. */
  lemma TimerMeans(s: System)
    ensures var after := Step(s, Timer);
      && after.client.(saveInProgress := s.client.saveInProgress) == s.client && after.server == s.server
      && if s.client.draftAllowed && s.client.changes
         then after.requests == s.requests + multiset{Request(s.client.version, s.client.values, AutoSave)} && after.client.saveInProgress
         else after == s
  {
  }

  /** A session as the page opens it. */
  predicate Opened(s: System) {
    Start(s) && !s.client.saveInProgress && s.client.serverError == ""
  }

  /** Unsaved changes wait for a save in progress, or an error is shown; and only where
      drafts are allowed is a save in progress. */
  predicate NothingForgotten(c: Client) {
    && (c.draftAllowed && c.changes ==> c.saveInProgress || c.serverError != "")
    && (c.saveInProgress ==> c.draftAllowed)
  }

  lemma AnswerForgetsNothing(c: Client, r: Response)
    requires NothingForgotten(c)
    ensures NothingForgotten(OnResponse(c, r))
  {
    if r.Saved? {
      SaveCompletedMeans(c, r.version, r.values);
    } else if !r.NotAllowed? {
      ErrorAnswerMeans(c, r);
    }
  }

  lemma StepForgetsNothing(s: System, ev: Event)
    requires Enabled(s, ev) && NothingForgotten(s.client)
    ensures NothingForgotten(Step(s, ev).client)
  {
    if ev.Deliver? { AnswerForgetsNothing(s.client, ev.response); }
  }

  lemma {:induction false} RunForgetsNothing(s: System, events: seq<Event>)
    requires NothingForgotten(s.client) && Possible(s, events)
    ensures NothingForgotten(Run(s, events).client)
    decreases |events|
  {
    if events != [] {
      StepForgetsNothing(s, events[0]);
      RunForgetsNothing(Step(s, events[0]), events[1..]);
    }
  }

  /** Over any run, no change is silently left unsaved; and while no error is shown,
      submitting is possible exactly when no save is in progress, and then everything is
      saved. */
  lemma NoChangeIsForgotten(s: System, events: seq<Event>)
    requires Opened(s) && Possible(s, events)
    ensures var end := Run(s, events);
      && (end.client.draftAllowed && end.client.changes ==> end.client.saveInProgress || end.client.serverError != "")
      && (end.client.draftAllowed && end.client.serverError == "" ==> (SubmitEnabled(end.client) <==> !end.client.saveInProgress))
      && (SubmitEnabled(end.client) ==> end.server.values == end.client.values)
  {
    RunForgetsNothing(s, events);
    NoChangesMeansSaved(s, events);
  }

  /** From every start, an edit that is saved and answered leaves the page saved, with
      submitting possible. */
  lemma SavedThenSubmit(s: System, values: Values)
    requires Start(s) && s.client.draftAllowed
    ensures var events := SaveEvents(s.client, values) + [Deliver(Saved(s.server.version + 1, values))];
      && Possible(s, events)
      && var end := Run(s, events);
      && SubmitEnabled(end.client) && end.client.values == values == end.server.values
      && end.client.version == end.server.version && end.client.serverError == ""
  {
    var first, saved := SaveEvents(s.client, values), Saved(s.server.version + 1, values);
    EditIsSaved(s, values);
    EditedValues(s, values);
    LastStep(Run(s, first), Deliver(saved));
    RunsOneAfterAnother(s, first, [Deliver(saved)]);
    SaveCompletedMeans(Run(s, first).client, s.server.version + 1, values);
  }

  lemma EditedValues(s: System, values: Values)
    ensures Run(s, SaveEvents(s.client, values)).client.values == values
    ensures Run(s, SaveEvents(s.client, values)).client.stored == Some(values)
  {
    ThreeSteps(s, EditField(values), Timer, Serve(Request(s.client.version, values, AutoSave), 0));
  }

  // ------------------------------------------------------------ the client's fields

  class SaveStatus {
    var values: Values
    var changes: bool
    var saveInProgress: bool
    var serverError: string
    var version: nat
    var stored: Option<Values>
    const draftAllowed: bool

    ghost function Current(): Client
      reads this
    {
      Client(values, changes, saveInProgress, serverError, version, stored, draftAllowed)
    }

    constructor (values: Values, version: nat, draftAllowed: bool)
      ensures Current() == Client(values, false, false, "", version, None, draftAllowed)
    {
      this.values, this.version, this.draftAllowed := values, version, draftAllowed;
      changes, saveInProgress, serverError, stored := false, false, "", None;
    }

    method BeginAutoSave()
      modifies this`saveInProgress
      ensures Current() == StartAutoSave(old(Current()))
    {
      if draftAllowed { saveInProgress := true; }
    }

    method UpdateField(newValues: Values)
      modifies this
      ensures Current() == OnUpdateField(old(Current()), newValues)
      ensures forall s: System {:trigger Step(s, EditField(newValues))} | s.client == old(Current()) ::
        Current() == Step(s, EditField(newValues)).client
    {
      values := newValues;
      changes := true;
      stored := Some(values);
      BeginAutoSave();
    }

    method RemoveField(newValues: Values)
      modifies this
      ensures Current() == OnRemoveField(old(Current()), newValues)
      ensures forall s: System {:trigger Step(s, RemoveRow(newValues))} | s.client == old(Current()) ::
        Current() == Step(s, RemoveRow(newValues)).client
    {
      values := newValues;
      changes := true;
      BeginAutoSave();
    }

    /** Posts the values against the version saved last. */
    method Post(operation: Operation) returns (request: Request)
      modifies this
      ensures request == RequestOf(old(Current()), operation) && Current() == UpdateOld(old(Current()))
      ensures forall s: System {:trigger Step(s, PressSubmit)} | s.client == old(Current()) && operation == Submit ::
        Current() == Step(s, PressSubmit).client && Step(s, PressSubmit).requests == s.requests + multiset{request}
    {
      saveInProgress := true;
      request := Request(version, values, operation);
    }

    /** The autosave timer: posts only when there is something to save. */
    method Save() returns (request: Option<Request>)
      modifies this
      ensures request.Some? <==> SendsOnSave(old(Current()))
      ensures request.Some? ==>
        request.value == RequestOf(old(Current()), AutoSave) && Current() == UpdateOld(old(Current()))
      ensures request.None? ==> Current() == old(Current())
      ensures forall s: System {:trigger Step(s, Timer)} | s.client == old(Current()) ::
        && Current() == Step(s, Timer).client
        && Step(s, Timer).requests == s.requests + if request.Some? then multiset{request.value} else multiset{}
    {
      if draftAllowed && changes {
        var posted := Post(AutoSave);
        return Some(posted);
      }
      return None;
    }

    method SaveCompleted(savedVersion: nat, savedValues: Values)
      modifies this
      ensures Current() == OnSaveCompleted(old(Current()), savedVersion, savedValues)
      ensures forall s: System {:trigger Step(s, Deliver(Saved(savedVersion, savedValues)))} | s.client == old(Current()) ::
        Current() == Step(s, Deliver(Saved(savedVersion, savedValues))).client
    {
      var locallyStored := stored;
      changes := values != savedValues;
      saveInProgress := false;
      serverError := "";
      version := savedVersion;
      if locallyStored.None? {
        values := savedValues;
        stored := Some(values);
      }
      if changes { BeginAutoSave(); }
    }

    method ServerError(response: Response)
      requires IsError(response)
      modifies this
      ensures Current() == OnResponse(old(Current()), response)
      ensures forall s: System {:trigger Step(s, Deliver(response))} | s.client == old(Current()) ::
        Current() == Step(s, Deliver(response)).client
    {
      if response.NotAllowed? { return; }   // the page is left for the preview
      saveInProgress := false;
      serverError := match response
        case Conflict => "conflict-save-error"
        case ValidationErrors => "submit-validation-errors"
        case Unexpected(Submit) => "unexpected-submit-error"
        case _ => "unexpected-save-error";
      if response == Unexpected(AutoSave) { BeginAutoSave(); }
    }
  }
}
