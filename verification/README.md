# The form engine of the grant application service, modelled and proved in Dafny

Applicants fill in forms in the browser. A form is a tree of fields; the answers are a
tree of key/value nodes; both are edited in place while the user types, adds and removes
rows, and the answers are saved in the background. This project models that engine
(`soresu-form/web/form` and the parts of `va-hakija` and `va-virkailija` that use it) and
proves what it keeps true: over every step, and over whole runs.

| file | what it models |
|---|---|
| `AnswerStore.dfy` | ids by their parts; the answer tree, its writes, reads and deletions |
| `GrowingFieldset.dfy`, `GrowingInvariant.dfy` | rows that are rendered, added, enabled, removed and renumbered; the invariant they keep |
| `Texts.dfy` | optional values, and texts by key |
| `FormTree.dfy`, `TreeLaws.dfy`, `SiblingOrder.dfy` | form trees, and trees that are the same but for the order of siblings |
| `FormRules.dfy`, `RuleLaws.dfy` | rules that include fields while an answer has some value, in the tree |
| `FormPage.dfy` | a form on the page: what rules do to its tree and to the rows of its growing fieldsets |
| `RenderedAgain.dfy` | which growing fieldsets an answer breaks, told from what was hidden before and is hidden after it |
| `FormRuns.dfy` | runs of such a form; what they break and what they keep; reloading |
| `ShowingBeside.dfy` | the smallest form on which an answer breaks a growing fieldset |
| `AnswerTypes.dfy` | the field types that answers carry, over whole runs |
| `FormStateTransitions.dfy` | the same events as methods that change an open form in place, with the loops of the source |
| `FieldIds.dfy`, `NaturalOrder.dfy` | the strings behind ids: indices, new ids, and the order of rows |
| `SaveProtocol.dfy` | autosave and submit, with requests and answers in flight, lost and reordered |
| `FieldTrees.dfy` | the deep merge of field trees, by lookup table |
| `FormEditor.dfy` | the form editor: fresh ids, adding, removing and moving fields |
| `Traversal.dfy` | preorder traversal of JSON with early exit, and the growing parent of a field |
| `Doubles.dfy`, `Shares.dfy` | IEEE 754 doubles, and shares rounded up through 20 decimals |
| `Budget.dfy` | the budget calculator: sums, total, self-financing, and what it caches |
| `BankAccount.dfy` | IBAN check digits (MOD 97-10 of ISO/IEC 7064) and the errors they detect |
| `ChangeRequests.dfy` | the budget and the end date in force after decisions on change requests |
| `Overrides.dfy` | the answers that opening an application writes for its officers |

Two forms of the same thing stand side by side where the source works in place: a method,
or a class with its fields, that has the loops and assignments of the source, and a
function that says what it computes. The method's `ensures` ties it to the function, and
the lemmas are about the function.

Things the proofs brought to light, each with a lemma:

- Two rows rendered from saved answers share a field's id exactly when each of them either
  stands at the prototype's index or has no answers entry for the field. Form fields never
  do, because an edit writes an entry for every field of the row; a heading inside a row, as
  in `va-virkailija/web/va/data/ValiselvitysForm.json`, does (`SharedIdsAfterRender`).
- A field that a rule shows is put in, and then every growing fieldset of its parent is
  rendered again. That keeps a fieldset well grown if and only if it has answers; one without
  answers gets two more rows, the second of its now four being disabled (`RenderingAgainIff`,
  `UnansweredRenderedAgain`). So an answer breaks exactly the fieldsets without answers that a
  field comes in beside, provided they were on the page already or were brought in by an
  earlier target (`StepBreaksExactly`, `RulesBreakExactly`, with the smallest failing form in
  `ShowingBesideBreaksASet`). A broken fieldset is mended when it leaves the page, when it is
  rendered again with answers, and by a reload (`BrokenUntilGone`, `AnsweredIsMended`,
  `EveryRunReloads`). In `va-virkailija/web/va/data/ValiselvitysForm.json` the answer to
  `radioButton-good-practices` (line 321) shows `gp-wrap` beside `project-description` (line
  61) and `project-outcomes` (line 182).
- Removing a row is not written to the browser's storage, so the answer to a save that was
  on its way can bring the removed row back (`CompletedSaveUndoesARemoval`). After any
  run, a completed save changes the values on the page exactly when no field was edited, no
  save completed before, and the server has other values (`RunKeepsValuesIff`).
- Once the answer to an accepted save is lost, nothing can be saved any more in that session,
  while no attachment is added or removed, and nothing else has this effect
  (`SavingStaysPossibleIff`, `ALostAnswerLeavesTheClientBehind`).
- A rule that shows a field again puts it where it was if and only if no sibling before it
  has a later place and the next one behind it has (`ShowingRestoresIff`). Siblings that
  differ in their index only are taken for each other, so this fails for `gp-wrap` in
  `ValiselvitysForm.json`: `textArea-4` behind it (line 380) is taken for `textArea-1` (line
  148) before it (`NumberedFollowerTakesThePlace`, and `SmallFormLosesItsOrder` with concrete
  lists). Which fields are on the form never depends on the order (`RulesForgetThePast`).
- One six-millionth of six million, rounded up, is two (`TinyRatioOvershoots`); exactly when
  a share is one too many is part of `RatioShareBound`.
- A digit and a letter of an account number change places unnoticed exactly in 1B, 2M and
  3X, and B1, M2 and X3 (`MixedSwapAcceptedIff`).
- Opening an application reports an update every time exactly when a trainee day calculator
  was answered by the empty text and not overridden (`SecondRunUpdatesIff`).

The version check of the server (`server/src/clojure/oph/va/hakija/handlers.clj`) is modelled
as: a write is accepted if and only if its base version is the current one; it then stores the
values and raises the version, by one or by more, as a submit makes two versions. The save
protocol has one client; only that client writes.

What the growing-row results assume, because the source needs it: ids of the form are unique
and growing fieldsets are not nested; a row prototype is one level deep, has a form field, and
its field names differ; answers are flat; a row is removed only where the page shows the
button; and the saved answers have an entry for every form field of a row that they mention, at
or after the prototype's index. Of rules they assume that the targets are inside some field,
not inside each other and not in two rules, and that a trigger is a field outside the growing
fieldsets, as in all forms of the repository. Runs follow every event but those in the rows of
a fieldset that is broken. Runs keep the saved answers loadable (`EveryRunReloads`).

## Model

| member | source | states |
|---|---|---|
| AnswerStore.WriteInRowIsNested | soresu-form/web/form/InputValueStorage.js:36-57 | finding the set, the row and the leaf by searching the whole tree from its root writes exactly the entry at set, row, leaf, whatever else the tree holds |
| AnswerStore.WriteInRowMeans | soresu-form/web/form/InputValueStorage.js:30-58 | a write to a field of a row keeps keys unique and nodes placed as the form has them, sets that one text and no other set, row, field or plain answer |
| AnswerStore.WritePlainMeans | soresu-form/web/form/InputValueStorage.js:11-34 | the same for a field outside the growing fieldsets |
| AnswerStore.WriteKeepsTypes | soresu-form/web/form/InputValueStorage.js:7-58 | a write gives the nodes it makes their field types, those of rows and sets included, and keeps the type of every other node |
| AnswerStore.DeleteRowMeans | soresu-form/web/form/InputValueStorage.js:102-111 | deleting a row removes its answers and nothing else, and keeps the placement |
| AnswerStore.DeleteKeepsTypes | soresu-form/web/form/InputValueStorage.js:102-111 | deleting a row takes away its node and those of its fields, and keeps the type of every other node |
| AnswerStore.ReadAfterWrite | soresu-form/web/form/InputValueStorage.js:7-100 | after a write the field reads the flat value written and every other field reads as before |
| AnswerStore.WritesCommute | soresu-form/web/form/InputValueStorage.js:7-100 | writes to two different fields can be swapped: every field reads the same |
| AnswerStore.LastWriteWins | soresu-form/web/form/InputValueStorage.js:7-100 | of two writes to one field only the second can be read |
| AnswerStore.ReadAfterDelete | soresu-form/web/form/InputValueStorage.js:67-111 | after a deletion the row's fields read empty, all others as before |
| GrowingInvariant.InitialRenderEstablishes | soresu-form/web/form/FormBranchGrower.js:9-67 | the edit-mode render of any renderable answers satisfies the growing-row invariant: answered rows require what the prototype requires, the rows behind them nothing |
| GrowingInvariant.InitialPlaceholders | soresu-form/web/form/FormBranchGrower.js:44-66 | two rows are rendered where at most one row is in the answers and they are blank, else two more than are in the answers; indices go on one by one |
| GrowingInvariant.EditKeepsInvariant | soresu-form/web/form/FormStateTransitions.ts:98-118 | an edit of an enabled row keeps the invariant; the field reads the new value, every other field as before, and no other fieldset changes |
| GrowingInvariant.ExpandedRows | soresu-form/web/form/FormBranchGrower.js:81-131 | an edit in the last but one row enables the last row, requires what the prototype requires and appends one disabled row that requires nothing; an edit elsewhere changes no row |
| GrowingInvariant.TouchMeans | soresu-form/web/form/FieldUpdateHandler.ts:48-80 | validating the other fields of a row changes nothing that can be read, and leaves an entry for every one of them |
| GrowingInvariant.RemovalKeepsInvariant | soresu-form/web/form/FormStateTransitions.ts:461-484 | a permitted removal keeps the invariant, removes exactly that row, and what every field of the form reads afterwards is given case by case |
| GrowingInvariant.RemovalConservesAnswers | soresu-form/web/form/FormBranchEditableFieldGrower.ts:13-81 | each surviving row reads at its current ids what it read before, whichever rows were renumbered |
| GrowingInvariant.FirstRowFree | soresu-form/web/form/FormBranchEditableFieldGrower.ts:55-74 | moving the first row to the prototype's index meets no answers already there |
| GrowingInvariant.ReloadRoundTrip | soresu-form/web/form/FormBranchGrower.js:15-42 | rendering the specification from a form's answers gives back its answered rows: same number, order, ids and required flags |
| GrowingInvariant.SharedIdsAfterRender | soresu-form/web/form/FormBranchGrower.js:15-30 | two rendered rows share a field's id if and only if each stands at the prototype's index or has no entry for the field |
| GrowingInvariant.FieldIdsAreUnique | soresu-form/web/form/FormBranchGrower.js:154-179 | under the invariant the ids of form fields, and of rows, are unique |
| GrowingInvariant.RenderingAgainIff | soresu-form/web/form/FormBranchGrower.js:44-66 | rendering a fieldset that has its placeholders once more keeps the invariant if and only if the fieldset has answers |
| GrowingInvariant.UnansweredRenderedAgain | soresu-form/web/form/FormBranchGrower.js:57-64 | an unanswered fieldset that is rendered twice has four rows, of which the second and the last are disabled |
| FormPage.RulesSpoil | soresu-form/web/form/FormRules.js:8-66 | applying rules, with the rendering it brings, breaks the invariant of exactly the fieldsets that are on the page without answers when a field comes in beside them, as told from tree and answers |
| RenderedAgain.RulesBreakExactly | soresu-form/web/form/FormRules.js:8-79 | without replaying the rules: a fieldset on the page is broken after them if and only if it was before, or it has no answers and a hidden target comes in beside it, all hidden fields that held the fieldset having come in earlier |
| FormPage.AnsweredIsMended | soresu-form/web/form/FormRules.js:64-79 | whatever its rows are, a fieldset with answers is well again once a field comes in beside it |
| FormPage.RulesSettle | soresu-form/web/form/FormRules.js:8-38 | whatever was hidden before, applying the rules leaves exactly the fields that the answers do not hide |
| FormPage.RulesAreAtRest | soresu-form/web/form/FormRules.js:40-62 | applying the rules to such a form again changes neither tree nor rows |
| FormPage.RulesRenderNothing | soresu-form/web/form/FormStateLoop.ts:131-140 | when a form is opened the rules only take fields out, and render nothing |
| FormRuns.StepBreaksExactly | soresu-form/web/form/FormStateTransitions.ts:98-118 | whatever is broken already, an event that is followed breaks exactly those fieldsets, and leaves everything else of the page in order |
| FormRuns.StepOkIff | soresu-form/web/form/FormStateTransitions.ts:98-118 | with nothing broken, an event keeps the invariant of every growing fieldset if and only if no field comes in beside one that has no answers |
| FormRuns.BrokenUntilGone | soresu-form/web/form/FormRules.js:82-93 | an event mends a broken fieldset if and only if it takes it off the page |
| FormRuns.ShowingNothingIsHarmless | soresu-form/web/form/FormStateTransitions.ts:98-101 | an answer after which no hidden field is shown keeps the invariant |
| ShowingBeside.ShowingBesideBreaksASet | soresu-form/web/form/FormRules.js:50-66 | on a form with one rule and one growing fieldset, answering the question that shows a field beside the fieldset leaves four rows with a disabled one in the middle |
| FormRuns.EveryRunIsWellGrownIff | soresu-form/web/form/FormStateTransitions.ts:85-118 | after any run, rules included, a fieldset on the page has at least two rows, strictly increasing indices, unique ids, exactly the last row disabled, the row before it blank, and nothing required in unanswered rows but the first, if and only if it is not among those that the run has broken |
| FormRuns.EveryRunIsWellGrown | soresu-form/web/form/FormStateTransitions.ts:85-118 | after any run of harmless events every fieldset on the page is so |
| FormRuns.EveryRunIsSettled | soresu-form/web/form/FormStateTransitions.ts:98-101 | after any run the page has exactly the fields of the specification that the last answers do not hide, each once, and the growing fieldsets among them |
| FormRuns.EveryRunReloads | soresu-form/web/form/FormBranchGrower.js:9-67 | after any run, loading its answers gives the same fields with no fieldset broken, and of every fieldset exactly the answered rows, in order, with the same ids and flags |
| AnswerTypes.EveryRunKeepsTypes | soresu-form/web/form/InputValueStorage.js:7-58 | after any run, rows that were added, moved and removed included, every node of the answers has the field type that the form gives its field, if the saved ones have |
| FormStateTransitions.WriteChildValue | soresu-form/web/form/InputValueStorage.js:11-28 | the first child with the key gets the value, or a child is appended |
| FormStateTransitions.CreateNewChild | soresu-form/web/form/FormBranchGrower.js:154-179 | the new row: next index in every id, nothing required, disabled unless asked otherwise |
| FormStateTransitions.PopulateRepeatingItem | soresu-form/web/form/FormBranchGrower.js:15-30 | a row takes each field's id from the last answer with its name |
| FormStateTransitions.PopulateGrowingSet | soresu-form/web/form/FormBranchGrower.js:32-42 | one row for every answered row, sorted |
| FormStateTransitions.RenderGrowingSet | soresu-form/web/form/FormBranchGrower.js:44-66 | the edit-mode render of one fieldset, from whatever rows it has |
| FormStateTransitions.RenderGrowingSets | soresu-form/web/form/FormBranchGrower.js:44-67 | the render of all fieldsets in a part of the form; the others keep their rows |
| FormStateTransitions.CollectAnswersToWrite | soresu-form/web/form/FormBranchEditableFieldGrower.ts:29-36 | the worklist: what the first row's form fields read, addressed to the prototype |
| FormStateTransitions.MutateIdsToMatchPrototype | soresu-form/web/form/FormBranchEditableFieldGrower.ts:44-53 | every node of the row gets its prototype's id and required flag |
| FormStateTransitions.RemoveChild | soresu-form/web/form/FormRules.js:88-90 | removes exactly the rows with the id |
| FormStateTransitions.OpenForm.constructor | soresu-form/web/form/FormStateLoop.ts:131-140 | an opened form has the rules applied and its fieldsets rendered from its answers, and satisfies the invariant |
| FormStateTransitions.OpenForm.AddNewField | soresu-form/web/form/FormRules.js:64-79 | the field is put in where the specification has it, and every fieldset under its parent is rendered |
| FormStateTransitions.OpenForm.DoIncludeOrRemoveField | soresu-form/web/form/FormRules.js:40-62 | one target is put in, taken out or left, with the rendering that goes with it |
| FormStateTransitions.OpenForm.HandleIncludeIf | soresu-form/web/form/FormRules.js:22-38 | one rule over all its targets |
| FormStateTransitions.OpenForm.ApplyRulesToForm | soresu-form/web/form/FormRules.js:8-20 | all rules in their order; rules of other types do nothing |
| FormStateTransitions.OpenForm.WriteRowValue | soresu-form/web/form/InputValueStorage.js:30-57 | writes into the row that contains the field, and throws if and only if another row contains it too |
| FormStateTransitions.OpenForm.ExpandGrowingFieldSetIfNeeded | soresu-form/web/form/FormBranchGrower.js:81-131 | the in-place growth is the function that the invariant is proved about |
| FormStateTransitions.OpenForm.ValidateFields | soresu-form/web/form/FieldUpdateHandler.ts:66-80 | writes back what each other field of the row reads, and never throws on an invariant form |
| FormStateTransitions.OpenForm.OnUpdateRowField | soresu-form/web/form/FormStateTransitions.ts:98-118 | the handler, rules included, is the step of the runs, never throws, and breaks no fieldset |
| FormStateTransitions.OpenForm.OnUpdatePlainField | soresu-form/web/form/FormStateTransitions.ts:98-118 | the handler is the step of the runs; it breaks exactly the fieldsets without answers that a field comes in beside |
| FormStateTransitions.OpenForm.EnsureFirstChildIsRequired | soresu-form/web/form/FormBranchEditableFieldGrower.ts:13-81 | the first row becomes the prototype's, with its answers moved |
| FormStateTransitions.OpenForm.OnRemoveField | soresu-form/web/form/FormStateTransitions.ts:461-484 | the handler is the removal step of the runs and breaks no fieldset |
| FieldIds.RowIndexParses | soresu-form/web/form/FormUtil.ts:131-140 | the index of base-n is n, whatever the base |
| FieldIds.NumberIsRead | soresu-form/web/form/FormUtil.ts:131-140 | a number is read up to the first character that is no digit, with its sign |
| FieldIds.HexIsRead | soresu-form/web/form/FormUtil.ts:131-140 | after 0x hexadecimal digits are read, as `parseInt` without a radix does |
| FieldIds.NothingElseIsRead | soresu-form/web/form/FormUtil.ts:131-140 | white space before a number does not count; before anything else there is no number |
| FieldIds.RowWithoutIndex | soresu-form/web/form/FormUtil.ts:119-129 | base-n without its index is the base, for bases without dots |
| FieldIds.RowWithoutIndexIff | soresu-form/web/form/FormUtil.ts:119-129 | for a base with dots, if and only if its earlier parts carry no index |
| FieldIds.LeafWithoutIndex | soresu-form/web/form/FormUtil.ts:119-129 | fields of different rows are the same without their indices |
| FieldIds.RowNameInjective | soresu-form/web/form/FormBranchGrower.js:171-178 | rows of a fieldset have the same id only with the same index |
| FieldIds.LeafNameInjective | soresu-form/web/form/FormBranchGrower.js:171-178 | fields of rows have the same id only in the same row with the same name |
| FieldIds.NewRowIds | soresu-form/web/form/FormBranchGrower.js:171-178 | the new row's id has the last index plus one, and string replacement gives each child its prototype's id with that index |
| FieldIds.EndsWithName | soresu-form/web/form/FormBranchGrower.js:20-25 | an answer's key ends in a field's name if and only if it is that field's |
| NaturalOrder.NaturalCompare | soresu-form/web/JsUtil.ts:115-148 | the loop over tokens is the lexicographic comparison, shorter first |
| NaturalOrder.NaturalOrderIsTotalPreorder | soresu-form/web/JsUtil.ts:115-148 | on all strings the comparison is antisymmetric in sign and transitive, given a collation that is |
| NaturalOrder.RowsCompareByIndex | soresu-form/web/form/FormBranchGrower.js:39-41 | row ids compare as their indices, for every base |
| NaturalOrder.WholeTokens | soresu-form/web/JsUtil.ts:115-148 | numbers compare by value, texts as they are collated, and a number comes before a text |
| NaturalOrder.ListsCompare | soresu-form/web/JsUtil.ts:115-148 | one list of tokens is less than another if and only if at some place both agree before it and there it is less, or ends |
| SaveProtocol.StepKeepsInv | soresu-form/web/form/FormStateTransitions.ts:353-449 | every step of client, server and network keeps the versions and values of the two in relation |
| SaveProtocol.NoChangesMeansSaved | soresu-form/web/form/FormStateTransitions.ts:402-449 | over all interleavings, without pending changes the server has the values on the page, requests in flight notwithstanding |
| SaveProtocol.NoChangeIsForgotten | soresu-form/web/form/FormStateTransitions.ts:353-502 | over all interleavings, with drafts allowed, an unsaved change means that a save is in progress or an error is shown; while no error is shown submitting is possible if and only if no save is in progress, and the server then has the values on the page |
| SaveProtocol.SavedThenSubmit | va-hakija/web/va/VaFormTopbar.tsx:62-72 | from every start, an edit that the timer posts and the server answers leaves the page saved, without error, and submitting possible |
| SaveProtocol.SaveCompletedMeans | soresu-form/web/form/FormStateTransitions.ts:424-449 | after a completed save no error is shown, a save is in progress if and only if the page differs from what was saved, and submitting is possible if and only if it does not |
| SaveProtocol.ErrorAnswerMeans | soresu-form/web/form/FormStateTransitions.ts:486-502 | an error answer touches nothing that was entered and shows its own error; only an unexpected one on autosave leaves a save in progress |
| SaveProtocol.TimerMeans | soresu-form/web/form/FormStateTransitions.ts:402-409 | the timer posts exactly what is unsaved against the version saved last, and else does nothing |
| SaveProtocol.CompletedSavesKeepTheValues | soresu-form/web/form/FormStateTransitions.ts:424-449 | while fields are only edited, no completed save changes the values on the page |
| SaveProtocol.SaveCompletedKeepsValuesIff | soresu-form/web/form/FormStateTransitions.ts:430-441 | a completed save leaves the values alone if and only if values were stored locally or are the same |
| SaveProtocol.RunKeepsValuesIff | soresu-form/web/form/FormStateTransitions.ts:424-449 | after any run, row removals included, a completed save leaves the values on the page alone if and only if a field was edited or a save completed before, or the server has those values |
| SaveProtocol.CompletedSaveUndoesARemoval | soresu-form/web/form/FormStateTransitions.ts:461-484 | a run in which a completed save brings back what a removal took away |
| SaveProtocol.SavingStaysPossibleIff | soresu-form/web/form/FormStateTransitions.ts:353-449 | some continuation changes what the server has if and only if the client has not missed a version |
| SaveProtocol.AnythingCanBeSaved | soresu-form/web/form/FormStateTransitions.ts:402-449 | while it has not, any given values can still be saved |
| SaveProtocol.LostAnswerBlocksSaving | server/src/clojure/oph/va/hakija/db.clj:68-69 | once it has, the server stays as it is in every continuation, and an edit stays marked as unsaved |
| SaveProtocol.ALostAnswerLeavesTheClientBehind | soresu-form/web/form/FormStateTransitions.ts:353-384 | from every start, a run whose save is accepted and its answer lost ends there |
| SaveProtocol.SubmitStoresNothingNew | va-hakija/web/va/VaFormTopbar.tsx:62-72 | a submit stores exactly the values the server already had |
| SaveProtocol.SaveStatus.UpdateField | soresu-form/web/form/FormStateTransitions.ts:98-118 | an edit marks changes, stores the values locally and starts the autosave |
| SaveProtocol.SaveStatus.RemoveField | soresu-form/web/form/FormStateTransitions.ts:461-484 | a removal marks changes but stores nothing locally |
| SaveProtocol.SaveStatus.Post | soresu-form/web/form/FormStateTransitions.ts:353-384 | a post carries the values and the version saved last (`va-hakija/web/va/VaUrlCreator.js`) |
| SaveProtocol.SaveStatus.Save | soresu-form/web/form/FormStateTransitions.ts:402-409 | the timer posts if and only if drafts are allowed and there are changes |
| SaveProtocol.SaveStatus.SaveCompleted | soresu-form/web/form/FormStateTransitions.ts:424-449 | the client after a completed save: as `SaveCompletedMeans` says, with no save in progress unless something is still unsaved |
| SaveProtocol.SaveStatus.ServerError | soresu-form/web/form/FormStateTransitions.ts:486-502 | the client after an error; an unexpected one on autosave starts it again |
| FormRules.FindIndexBefore | soresu-form/web/form/FormUtil.ts:62-73 | the loop finds how many current children come before a place |
| FormRules.FindChildIndexAccordingToFieldSpecification | soresu-form/web/form/FormUtil.ts:53-74 | how many current children come before the field's place in the specification |
| RuleLaws.TargetStep | soresu-form/web/form/FormRules.js:40-93 | on a form that is the full one without some fields, one target appears or disappears and nothing else changes anywhere in the tree; where targets keep their places it appears at its place, else somewhere among its siblings |
| RuleLaws.ShowingRestoresIff | soresu-form/web/form/FormUtil.ts:53-74 | showing one hidden target puts it where the specification has it if and only if no sibling on the form before it has a later place and the first one behind it has |
| RuleLaws.DistinctSiblingsKeepTheirPlaces | soresu-form/web/form/FormUtil.ts:39-74 | siblings that differ without their indices keep their places, whichever of them are hidden |
| RuleLaws.RulesForgetThePast | soresu-form/web/form/FormRules.js:8-38 | whatever was hidden before, applying the rules gives the full form without exactly the fields that the answers hide, up to the order of siblings, and in order where targets keep their places; the last rule about a field decides |
| RuleLaws.FormDependsOnLastAnswers | soresu-form/web/form/FormStateTransitions.ts:98-101 | after any sequence of answers, with the rules applied after each, the form depends on the last answers only, in the same sense |
| RuleLaws.RuleParentAfter | soresu-form/web/form/FormRules.js:40-93 | the children of a rule's parent are the specification's, in that order, without those that the answers hide, where targets keep their places |
| RuleLaws.HideThenShowRestores | soresu-form/web/form/FormRules.js:40-93 | applying rules is idempotent, and going back to earlier answers restores the form, where targets keep their places |
| RuleLaws.NumberedFollowerTakesThePlace | soresu-form/web/form/FormUtil.ts:39-74 | a target whose next sibling has the name of an earlier one but for the index is not put back where it was |
| RuleLaws.SmallFormLosesItsOrder | soresu-form/web/form/FormUtil.ts:53-74 | between x-1 and x-2, a field that is hidden and shown comes back behind x-2 |
| FieldTrees.Traverse | soresu-form/web/form/FormUtil.ts:151-180 | merging with a lookup table that is updated while children are pushed is merging by linear search |
| FieldTrees.MergeDeepFieldTrees | soresu-form/web/form/FormUtil.ts:142-149 | the variadic merge is the merge of one tree after another |
| FieldTrees.MergeIsCombine | soresu-form/web/form/FormUtil.ts:151-180 | with unique sibling ids the merge is the simple one: matched children merged in the left order, then the right children with new ids |
| FieldTrees.MergeLaws | soresu-form/web/form/FormUtil.ts:142-181 | sibling ids stay unique, the left children are a prefix in their order, and merging again, or with itself, changes nothing |
| FieldTrees.MergedAt | soresu-form/web/form/FormUtil.ts:142-181 | at the end of every path, at any depth, the merge has what the left tree has there, and where that has nothing, what the right tree has |
| FieldTrees.MergeAssociates | soresu-form/web/form/FormUtil.ts:142-181 | the merge is associative |
| FieldTrees.AnyBracketing | soresu-form/web/form/FormUtil.ts:142-149 | the merge of any number of trees is the same however they are bracketed |
| FormEditor.GenerateUniqueId | soresu-form/web/form/edit/FormEditController.ts:188-194 | the search ends, with the first id of its family that the form does not have |
| FormEditor.NewIdsAreFresh | soresu-form/web/form/edit/FormEditController.ts:113-186 | all ids of a new field, those of nested fields included, are new and different |
| FormEditor.NewFieldHolds | soresu-form/web/form/edit/FormEditController.ts:113-186 | a new growing fieldset comes with one row, a row with one text field, each with the first free id of its family; other fields come empty |
| FormEditor.AddKeepsUnique | soresu-form/web/form/edit/FormEditController.ts:196-225 | adding keeps ids unique; the field stands right behind the given one; removing it gives the form back |
| FormEditor.AddedIsNamed | soresu-form/web/form/edit/FormEditController.ts:208-214 | what is added has the type asked for and the first free id of its family, that of its row in a row of a growing fieldset, else that of its type |
| FormEditor.RemoveKeepsUnique | soresu-form/web/form/edit/FormEditController.ts:57-69 | removing keeps ids unique, adds none, and the field is gone |
| FormEditor.RemovesItsIds | soresu-form/web/form/edit/FormEditController.ts:57-69 | removing a field takes out its ids, nested ones included, and no others |
| FormEditor.MoveThenBack | soresu-form/web/form/edit/FormEditController.ts:71-94 | moving permutes the siblings, leaves the others in their order and changes no ids; an in-range move and its opposite are the identity, one out of range does nothing |
| FormEditor.EditsKeepIdsUnique | soresu-form/web/form/edit/FormEditController.ts:57-225 | no sequence of edits makes an id occur twice |
| FormEditor.FormEditorController.AddFieldAfter | soresu-form/web/form/edit/FormEditController.ts:196-225 | the method is the function the theorems are about; without permission, or for a type it cannot create, the form stays |
| FormEditor.FormEditorController.Remove | soresu-form/web/form/edit/FormEditController.ts:57-69 | the same for removing |
| FormEditor.FormEditorController.Move | soresu-form/web/form/edit/FormEditController.ts:71-94 | the same for moving |
| FormEditor.MoveInList | soresu-form/web/form/edit/FormEditController.ts:82-86 | the same items; the moved one stands at the new index, and without it both lists are the same |
| Traversal.Collector.Traverse | soresu-form/web/JsUtil.ts:25-42 | the callback collects the matching nodes in preorder |
| Traversal.Search.FastTraverse | soresu-form/web/JsUtil.ts:44-81 | leaving out subtrees after a find gives the same captured variables as offering every node in preorder |
| Traversal.Search.TraverseInside | soresu-form/web/JsUtil.ts:5-22 | the same for the items of an array or the values of an object |
| Traversal.FlatFilterNodes | soresu-form/web/JsUtil.ts:25-42 | flatFilter is the filter of the preorder |
| Traversal.FindFirstNode | soresu-form/web/JsUtil.ts:44-60 | findFirst is the head of flatFilter, or null |
| Traversal.FindIndexOfFirst | soresu-form/web/JsUtil.ts:62-81 | findIndexOfFirst is that node's position in the preorder, or -1 |
| Traversal.GrowingParentIsUnique | soresu-form/web/form/FormUtil.ts:111-117 | with unique ids and no nested growing fieldsets the search for a growing parent never throws and finds the one set that holds the id, or none |
| Traversal.NestedSetsAreAnError | soresu-form/web/JsUtil.ts:83-101 | a field in a set inside another set makes it throw |
| Traversal.FindFieldIsFind | soresu-form/web/form/FormUtil.ts:76-78 | finding a field in the JSON of a form is finding it in the form tree |
| Doubles.NearestExists | soresu-form/web/MathUtil.ts:13-16 | every number has a nearest double |
| Doubles.GapAboveInteger | soresu-form/web/MathUtil.ts:13-16 | between an integer and the next double above it there is a gap that grows with the integer |
| Shares.RatioShareBound | soresu-form/web/MathUtil.ts:9-21 | while total times denominator is at most 2^52 the share is the exact ceiling or one more; one more if and only if the exact share is whole and the decimal product above it is not read as it; and the ceiling for a ratio of zero or at least one to ten thousand |
| Shares.PercentageShareIsExact | soresu-form/web/MathUtil.ts:23-25 | for whole percentages up to a hundred the share is the exact ceiling |
| Shares.TinyRatioOvershoots | soresu-form/web/MathUtil.ts:9-21 | one six-millionth of six million gives two |
| Budget.DerivedElement | soresu-form/web/va/VaBudgetCalculator.js:63-123 | an element's sum is what valid amounts add less what they take; a description is required if and only if its amount is valid and positive |
| Budget.LeastOwnShare | soresu-form/web/va/VaBudgetCalculator.js:143-147 | the least own share is the exact share of the total, rounded up |
| Budget.WhoPays | soresu-form/web/va/VaBudgetCalculator.js:143-203 | the applicant pays exactly the entered share, the share of the fixed ratio, or without a self-financing field the least share, and the grant is the rest of the total; where no number is entered both are empty |
| Budget.TotalNeededMeans | soresu-form/web/va/VaBudgetCalculator.js:125-141 | the total is what amounts add less what they take, or the granted costs in place of the first subtotal; it counts as positive if and only if it is, and as valid if and only if it is positive and, with detailed costs, all amounts are numbers |
| Budget.ErrorsMean | soresu-form/web/va/VaBudgetCalculator.js:206-216 | a budget has no error if and only if its total is positive and its financing valid; a total that is not positive is reported first |
| Budget.NumeralIsMoney | soresu-form/web/form/MoneyValidator.ts:4-14 | a number counts as an amount if and only if it has at most seven digits, and then counts as itself |
| Budget.GrantIsWithinItsPart | soresu-form/web/va/VaBudgetCalculator.js:143-203 | with no fixed ratio, a valid financing pays the whole total, and the granted part is not negative and at most what the percentage leaves |
| Budget.EnteredShareIsValid | soresu-form/web/va/VaBudgetCalculator.js:179-203 | an entered share is valid if and only if it is money that covers its percentage of the total and does not exceed the total |
| Budget.DependsOnAmounts | soresu-form/web/va/VaBudgetCalculator.js:92-243 | what a budget caches depends on its own amounts and self-financing answer only |
| Budget.UpdateKeepsFresh | va-hakija/web/va/VaApp.tsx:50-56 | an update of any field, a multiplier with its amount included, keeps every cached value equal to a fresh computation |
| Budget.RunsKeepBudgetsFresh | va-hakija/web/va/VaApp.tsx:50-56 | after any run of updates, multipliers included, every cached value equals a fresh computation |
| Budget.RunsKeepFinancingRight | soresu-form/web/va/VaBudgetCalculator.js:125-203 | after any such run the page shows of every budget who pays what: the entered, fixed or least share, and a grant that is the rest; an entered share is valid if and only if it covers its percentage of the total shown and does not exceed it; and a valid financing, of a total that is not negative, grants at most what the percentage leaves |
| Budget.RunsKeepTotalsRight | soresu-form/web/va/VaBudgetCalculator.js:92-141 | after any such run every budget shows the total of its amounts as they are now, and counts as positive and as valid exactly when it should |
| Budget.MultipliedAmount | soresu-form/web/va/VaBudgetCalculator.js:26-42 | a multiplier of digits makes its amount count 21.5 times as much, rounded down, or nothing beyond seven digits |
| Budget.MultiplierIsForItsRow | soresu-form/web/va/VaBudgetCalculator.js:26-42 | a multiplier is for the amount in its own row |
| Budget.UpdateWrites | soresu-form/web/va/VaBudgetCalculator.js:26-42 | an update answers no field but its own, and changes no other answer but, for a multiplier, the amount of its row where that is a money field with an answer |
| Budget.BudgetForm.constructor | soresu-form/web/va/VaBudgetCalculator.js:16-24 | after loading, every budget is freshly derived |
| Budget.BudgetForm.GetAmountValuesAndSetRequiredFields | soresu-form/web/va/VaBudgetCalculator.js:63-90 | the loop computes sum, required flags and errors, and changes nothing that is read |
| Budget.BudgetForm.DeriveSubtotals | soresu-form/web/va/VaBudgetCalculator.js:99-123 | the same for all summing elements |
| Budget.BudgetForm.DeriveValuesForBudgetFields | soresu-form/web/va/VaBudgetCalculator.js:92-243 | sums, total, financing and errors of one budget, all from the answers; who pays what is `WhoPays` |
| Budget.BudgetForm.HandleBudgetAmountUpdate | soresu-form/web/va/VaBudgetCalculator.js:44-61 | derives the one budget that holds the field; throws if and only if more than one does |
| Budget.BudgetForm.HandleFixedMultiplierUpdate | soresu-form/web/va/VaBudgetCalculator.js:26-42 | writes 21.5 times the field, rounded down, into the answer of its amount if there is one, and derives the budget that holds the amount |
| Budget.BudgetForm.OnUpdateField | va-hakija/web/va/VaApp.tsx:50-56 | an update is the step of the runs: it writes the answer, and derives budgets for money, self-financing and multiplier fields |
| BankAccount.Iso7064Mod97_10 | soresu-form/web/form/BankAccountValidator.js:77-87 | for digits of any length the chunked loop ends with the whole number modulo 97 |
| BankAccount.IsValidIban | soresu-form/web/form/BankAccountValidator.js:102-126 | valid if and only if well formed, of the country's length, and of residue one (`ValidIbanIff`) |
| BankAccount.ValidIbanIff | soresu-form/web/form/BankAccountValidator.js:102-126 | a well-formed IBAN is valid if and only if account number and country, as a number with the check digits behind it, leave 1 when divided by 97 |
| BankAccount.CheckDigits | soresu-form/web/form/BankAccountValidator.js:102-126 | of the check digits 02 to 98 exactly those that are 98 less the residue of account number, country and 00 make a valid IBAN, for every country and account number |
| BankAccount.TypedInAnyWay | soresu-form/web/form/BankAccountValidator.js:102-108 | white space and case do not matter, wherever they are typed |
| BankAccount.SubstitutionDetected | soresu-form/web/form/BankAccountValidator.js:77-125 | at any length, one digit for another or one letter for another changes the residue |
| BankAccount.SwapDetected | soresu-form/web/form/BankAccountValidator.js:77-125 | so does swapping two different neighbours of the same class |
| BankAccount.SubstitutionRejected | soresu-form/web/form/BankAccountValidator.js:102-126 | no valid IBAN stays valid after such a substitution, at any position |
| BankAccount.SwapUnnoticedIff | soresu-form/web/form/BankAccountValidator.js:77-125 | at any length, swapping two neighbours keeps the residue if and only if they are the same, or a digit and the letter that stands for eleven times it |
| BankAccount.SwapRejected | soresu-form/web/form/BankAccountValidator.js:102-126 | nor after such a swap, at any position, the last check digit and the first of the account number included |
| BankAccount.SwapAcceptedIff | soresu-form/web/form/BankAccountValidator.js:102-126 | when exactly an IBAN stays valid although two neighbours have changed places |
| BankAccount.MixedSwapUndetected | soresu-form/web/form/BankAccountValidator.js:118-123 | at any length, swapping a digit and a letter keeps the residue exactly in 1B, 2M and 3X |
| BankAccount.MixedSwapAcceptedIff | soresu-form/web/form/BankAccountValidator.js:102-126 | inside the account number of a valid IBAN, a digit and a letter can change places exactly in 1B, 2M and 3X, and B1, M2 and X3 |
| ChangeRequests.BudgetIsFold | soresu-form/web/va/Muutoshakemus.ts:97-114 | the budget in force is a left fold of the accepted requests in the order of creation |
| ChangeRequests.EndIsFold | soresu-form/web/va/Muutoshakemus.ts:63-76 | so is the end of the project; without requests it is the original end |
| ChangeRequests.NextFollowsFromThis | soresu-form/web/va/Muutoshakemus.ts:63-110 | the values before the next request follow from those before this one and this decision alone |
| ChangeRequests.ListOrderDoesNotMatter | soresu-form/web/va/Muutoshakemus.ts:97-133 | the requests can be listed in any order |
| ChangeRequests.OneOrder | soresu-form/web/va/Muutoshakemus.ts:112-114 | there is one descending order of the same requests, so any sorting gives it |
| ChangeRequests.OrderExists | soresu-form/web/va/Muutoshakemus.ts:112-114 | requests created at different times have an order of creation |
| Overrides.RunConverges | va-virkailija/web/va/hakemusten-arviointi-page/overrides.ts:110-227 | a run settles every calculator, leaves exactly the application's, and changes no other field; a calculator that was empty reads what the application has, one whose scope type agrees reads as before, and any other keeps its scope and person count and gets the application's type and the total that the three make |
| Overrides.SecondRunChangesNothing | va-virkailija/web/va/hakemusten-arviointi-page/overrides.ts:110-227 | with nonempty answers a second run reports no update and changes nothing |
| Overrides.SecondRunUpdatesIff | va-virkailija/web/va/hakemusten-arviointi-page/overrides.ts:128-192 | a second run reports an update if and only if a calculator was answered by the empty text and not overridden |
| Overrides.RenewedIsKept | va-virkailija/web/va/hakemusten-arviointi-page/overrides.ts:142-187 | an answer renewed for a changed scope type is left alone by the next run |
| Overrides.RunThrowsIff | va-virkailija/web/va/hakemusten-arviointi-page/overrides.ts:142-187 | a run throws if and only if some calculator's scope type differs and its scope or person count is missing |
| Overrides.RunReportsIff | va-virkailija/web/va/hakemusten-arviointi-page/overrides.ts:110-227 | a run reports an update if and only if some calculator is empty or of another scope type, or the application no longer has one |
| Overrides.PrefixOfRow | soresu-form/web/va/VaTraineeDayUtil.js:57-72 | a calculator in a growing fieldset stands for the same calculator in every row |
| Overrides.OverriddenAreTheApplications | soresu-form/web/va/VaTraineeDayUtil.js:57-72 | after a run the overridden calculators are those that the application answered, in rows of growing fieldsets or outside, and that belong to a calculator of the form |
| Overrides.BudgetSettles | va-virkailija/web/va/hakemusten-arviointi-page/overrides.ts:9-77 | a run over the budget copies every nonempty answer and leaves the rest as it reads |
| Overrides.BudgetReads | va-virkailija/web/va/hakemusten-arviointi-page/overrides.ts:9-77 | after a run over the budget a copied field reads the nonempty answer of the application, an empty field its initial value, and every other field as before; an update is reported if and only if an answer to copy was out of date |
| Overrides.SettledBudgetIsKept | va-virkailija/web/va/hakemusten-arviointi-page/overrides.ts:9-77 | on a settled budget a run reports no update and changes nothing that is read |
| Overrides.InitStarts | soresu-form/web/form/FormStateLoop.ts:25-68 | initial values fill empty fields only, and a second pass changes nothing that is read |
| Overrides.InitReads | soresu-form/web/form/FormStateLoop.ts:25-68 | an empty field reads the first initial value given for it, every other field as before |
| Overrides.OpeningConverges | va-virkailija/web/va/hakemusten-arviointi-page/arviointiReducer.ts:191-201 | opening an application twice: the second time no update is reported and nothing reads differently; the overridden calculators are the application's |
| Overrides.OpeningKeepsTypes | va-virkailija/web/va/hakemusten-arviointi-page/arviointiReducer.ts:191-201 | every answer that opening an application writes has its field's type |
| Overrides.OverriddenAnswers.MutateDefaultBudgetValues | va-virkailija/web/va/hakemusten-arviointi-page/overrides.ts:9-77 | the loops in place are the function the theorems are about |
| Overrides.OverriddenAnswers.AddNewAndUpdateOutdated | va-virkailija/web/va/hakemusten-arviointi-page/overrides.ts:128-192 | the same for adding and updating calculators, with its exception |
| Overrides.OverriddenAnswers.DeleteStaleAnswers | va-virkailija/web/va/hakemusten-arviointi-page/overrides.ts:194-214 | the same for deleting stale ones |
| Overrides.OverriddenAnswers.MutateDefaultTraineeDayValues | va-virkailija/web/va/hakemusten-arviointi-page/overrides.ts:110-227 | the whole run over trainee days |

## Left out

- Aliasing: rows, answer nodes and form trees are values held in the fields of classes, which the methods reassign; that two references to one node see the same update is not modelled.
- Nested prototypes: a row prototype is one level deep, as `createNewChild` renames direct children only.
- Values of checkboxes and tables: a field's answer is one text, so sorting of multiple values on reading and two-dimensional arrays are not modelled.
- The `validationErrors` map, apart from the budget's errors; syntax validation of fields and required fields.
- Attachments: uploading and removing them, and their effect on the answers.
- Strings: upper case and white space beyond ASCII and the usual spaces, `$` patterns in the replacement text of `String.replace`, and locales (the order of text tokens is a parameter).
- Numbers in ids are unbounded integers: `parseInt` and `naturalCompare` on more digits than a double holds, and infinity, are not modelled; nor is the exponent range of doubles.
- SaveProtocol.NoChangesMeansSaved: there is one client that writes; `beforeunload` and the evaluation page's own autosave are not modelled.
- SaveProtocol.SavingStaysPossibleIff: adding or removing an attachment asks the server for its version (`soresu-form/web/form/FormStateTransitions.ts:209-215`), after which a client that was behind is no longer; attachments are not modelled.
- SaveProtocol.CompletedSavesKeepTheValues: for runs of field edits; with row removals it is false (`CompletedSaveUndoesARemoval`), and `RunKeepsValuesIff` has the condition.
- FormRuns.EveryRunIsWellGrownIff: ids of nodes that are no form fields are not claimed to be unique, as they are not after a reload (`SharedIdsAfterRender`); saved answers are such that the page itself leaves behind. Edits and removals in the rows of a fieldset that is broken are not followed.
- SaveProtocol.SavedThenSubmit: the submit button also waits for a form that client and server find valid and that is not submitted yet (`va-hakija/web/va/VaFormTopbar.tsx:62-72`), which is not modelled.
- AnswerTypes.EveryRunKeepsTypes: an edit outside the growing fieldsets carries its field's type, as the page takes it from the field.
- FormRuns.EveryRunReloads: the order of siblings after a reload can differ from the order before it where a target does not keep its place.
- RuleLaws.RulesForgetThePast: triggers are fields outside growing fieldsets, and targets are not inside each other.
- FieldTrees.Traverse: that the inputs are not changed is not stated, as trees are values.
- FormEditor.EditsKeepIdsUnique: a moved field is one of the form's; texts, options and parameters of fields are left out.
- Budget.RunsKeepBudgetsFresh: amounts that are numbers rather than texts are not modelled; an amount that follows from a multiplier is not edited itself, as it is shown as a value (`soresu-form/web/form/component/FormComponent.jsx:42`); the evaluation's choice of detailed costs does not change during a run; runs end where an update throws.
- Budget.MultipliedAmount: the product for texts that are not digits is a parameter.
- Budget.LeastOwnShare: for totals that are not negative and at most 2^52 / 100.
- Budget.GrantIsWithinItsPart: differences of shares are taken in exact arithmetic; without a fixed self-financing ratio.
- Overrides.OverriddenAreTheApplications: an application's answers are read in preorder without the groups themselves, as no group has a calculator's key.
- Overrides.RunConverges: reading a calculator's answer does not sort its parts, as finding a part by its key does not depend on their order; the trainee day total as text is a parameter.
- ChangeRequests.BudgetIsFold: times of creation are integers, all different, and end dates are texts rather than parsed moments.
- `isValidBic`, the Finnish business id, table cell helpers and the translator: finite or easy.
- React components, event streams, timers (any moment may be the timer's), scrolling, and the evaluation page's seuranta answers.
