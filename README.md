# Account restoration and conversation notices of a messaging client

This project models two pieces of decision logic of the Session desktop
client's user interface and proves their properties in Dafny.

**Account restoration** (`ts/components/registration/stages/RestoreAccount.tsx`).
A user restores an account from a recovery phrase. The screen moves through
the steps `RecoveryPassword`, `Loading`, `Finishing`, `Finished`, `Complete`
and `DisplayName`. While `Loading` and `Finishing` run, a progress bar from
0 to 100 advances one point per timer tick. The network call that signs in
and fetches the display name decides where `Loading` goes next. On `Finished`
the presence of a display name decides between `Complete` and manual name
entry. When the effect runs on `Complete` with a non-empty display name, the inbox is opened.

- `AccountRestoration` (`account_restoration.dfy`) gives the screen's state as
  a value. It defines one transition function `Next` over the events the
  screen reacts to, and `Run` over sequences of them. It also holds the lemmas:
  the step table, the bar's bound, the scenarios and the quirks of the code.
- `RestoreAccount.Screen` (`restore_account.dfy`) is the same screen as an
  object. Its fields are the store's step and the component's state hooks;
  its methods update them in place. Each state-changing method is proved to perform exactly
  `Next` on the screen's snapshot, and to keep the bar within 100.

The recovery handler awaits the network call. It is modelled as two events:
`StartRecovery` runs up to the await and `RecoveryResolved(outcome)` runs
after it. Timer ticks can fall between the two, as they can in the client.
The network call itself is the `outcome` parameter: a fetched name,
`NotFound`, or any other error.

Error messages are `string | undefined` in the client and are tested for
JavaScript truthiness. They are modelled as `Option<string>`, and `Truthy`
treats both `None` and `Some("")` as "no error". The display-name error
starts out as the empty string.

**Conversation notices** (`ts/components/conversation/SubtleNotification.tsx`).
Three notices can show above a conversation: the pending outgoing request,
the incoming request to answer, and the empty-conversation notice. Each one
is a total function from the selectors' facts to an optional localisation key.

Three behaviours of the code are modelled as written, although a plain
reading of the wizard's step order would suggest otherwise:
- A `Loading` bar that fills before the network replies goes to
  `DisplayName`, not to `Finishing` (`LoadingTimeout`).
- `Finishing` continues from the progress `Loading` had reached. After `k`
  loading ticks it takes `102 - k` ticks to reach `Complete`, not a fresh
  100 (`SuccessfulRecovery`).
- The network reply can move the step at any moment, also before the bar is
  full. It is not checked against the current step, so a name that arrives
  after the timeout pulls the screen out of manual entry
  (`LateReplyLeavesManualEntry`).

## Model

| member | source | states |
|---|---|---|
| AccountRestoration.Mounted | ts/components/registration/stages/RestoreAccount.tsx:116-122 | on mount the inputs are empty, the bar is at 0, the inbox is not opened, and neither error counts as set (the name error starts as "") |
| AccountRestoration.PhraseErrorAfterEdit | ts/components/registration/stages/RestoreAccount.tsx:194-197 | editing the phrase sets a (truthy) error exactly when the new phrase is empty, and clears it otherwise |
| AccountRestoration.PhraseContinueEnabled | ts/components/registration/stages/RestoreAccount.tsx:204-210 | the phrase form's continue button is enabled iff the phrase is non-empty and its error is undefined or the empty string |
| AccountRestoration.SubmitNameAllowed | ts/components/registration/stages/RestoreAccount.tsx:150-153 | the display-name handler goes past its early return iff the name is non-empty and its error is undefined or the empty string |
| AccountRestoration.NameContinueEnabled | ts/components/registration/stages/RestoreAccount.tsx:235-242 | the display-name button is enabled iff the phrase button's condition holds and the name handler's own guard holds; it then has a name and a phrase |
| AccountRestoration.Next | ts/components/registration/stages/RestoreAccount.tsx:42-161 | every step keeps the bar within 100; the bar rises only by 1 on a tick of Loading/Finishing; it falls only on a restart, which sets Loading at 0; timer transitions keep the progress; Finishing is entered only on a fetched name; Finished is left on its first tick; Complete is entered only with a name; the inbox opens iff the Complete effect runs with a name; only the matching events change the inputs |
| AccountRestoration.Run | ts/components/registration/stages/RestoreAccount.tsx:42-161 | over any sequence of events the bar stays within 100, drops only if recovery restarted, the inbox opens only through the Complete effect, and the name changes only by an edit or a fetched name |
| AccountRestoration.TickFillsBar | ts/components/registration/stages/RestoreAccount.tsx:45-80 | below 100, a Loading or Finishing tick raises the progress by exactly 1 and keeps the step |
| AccountRestoration.LoadingTimeout | ts/components/registration/stages/RestoreAccount.tsx:55-62 | a Loading tick at 100 moves to DisplayName (not Finishing) and leaves the progress unchanged |
| AccountRestoration.FinishingDone | ts/components/registration/stages/RestoreAccount.tsx:75-78 | a Finishing tick at 100 moves to Finished and leaves the progress unchanged |
| AccountRestoration.FinishedDecides | ts/components/registration/stages/RestoreAccount.tsx:82-96 | the one Finished tick goes to Complete with a non-empty name and to DisplayName otherwise, progress untouched |
| AccountRestoration.RecoveryOutcomes | ts/components/registration/stages/RestoreAccount.tsx:128-148 | starting recovery sets Loading at 0; a fetched name is stored and goes to Finishing without resetting progress; NotFound goes to DisplayName; any other error to RecoveryPassword |
| AccountRestoration.SubmitNameOutcome | ts/components/registration/stages/RestoreAccount.tsx:150-161 | submitting a name changes nothing unless the name is non-empty with no error, and then ends in Complete |
| AccountRestoration.EditPhraseEnables | ts/components/registration/stages/RestoreAccount.tsx:194-208 | after editing the phrase, its error is set iff it is empty, and the phrase button is enabled iff it is non-empty |
| AccountRestoration.EnterKeyBypassesButtons | ts/components/registration/stages/RestoreAccount.tsx:194-242 | from every state, starting recovery reaches Loading whatever the phrase button says, and submitting a name completes iff the handler's own guard holds, whatever the phrase; two states show each button disabled while its handler goes ahead |
| AccountRestoration.FillBar | ts/components/registration/stages/RestoreAccount.tsx:45-80 | n ticks of Loading or Finishing within 100 add exactly n to the progress and change nothing else |
| AccountRestoration.LoadingRunsOut | ts/components/registration/stages/RestoreAccount.tsx:45-63 | without a reply, Loading fills the bar to 100 one point per tick, and the next tick goes to DisplayName; Finishing is never visited |
| AccountRestoration.FinishingRunsOut | ts/components/registration/stages/RestoreAccount.tsx:66-96 | Finishing from p reaches Finished at 100 after 101 - p ticks, and Complete (with a name) or DisplayName one tick later |
| AccountRestoration.IdleTicks | ts/components/registration/stages/RestoreAccount.tsx:45-107 | on RecoveryPassword, DisplayName and Complete no interval runs, so ticks change nothing |
| AccountRestoration.ReplyWhileLoading | ts/components/registration/stages/RestoreAccount.tsx:128-148 | after a restart and k <= 100 ticks the screen is Loading at progress k, so the reply's outcome acts on that state |
| AccountRestoration.SuccessfulRecovery | ts/components/registration/stages/RestoreAccount.tsx:99-148 | start, k loading ticks, a fetched name: Finishing at progress k; then 102 - k ticks and the Complete effect end in Complete at 100 with the name and the inbox opened |
| AccountRestoration.RecoveryNotFound | ts/components/registration/stages/RestoreAccount.tsx:128-143 | a NotFound reply after k loading ticks goes to DisplayName, progress k |
| AccountRestoration.LateReplyLeavesManualEntry | ts/components/registration/stages/RestoreAccount.tsx:55-137 | after more than 100 ticks Loading has timed out to DisplayName at 100, and a name arriving then moves the screen back to Finishing |
| RestoreAccount.Screen.constructor | ts/components/registration/stages/RestoreAccount.tsx:113-122 | a mounted screen is the mount state on the store's step |
| RestoreAccount.Screen.Tick | ts/components/registration/stages/RestoreAccount.tsx:45-97 | one interval firing updates the fields exactly as Next does on a tick and keeps progress within 100 |
| RestoreAccount.Screen.StartRecovery | ts/components/registration/stages/RestoreAccount.tsx:128-130 | the handler's prefix sets the fields as Next does on a restart: Loading at 0 |
| RestoreAccount.Screen.FinishRecovery | ts/components/registration/stages/RestoreAccount.tsx:131-147 | the handler's continuation sets the fields as Next does for the network outcome |
| RestoreAccount.Screen.EditRecoveryPhrase | ts/components/registration/stages/RestoreAccount.tsx:194-197 | the phrase input stores the phrase and its error as Next does |
| RestoreAccount.Screen.EditDisplayName | ts/components/registration/stages/RestoreAccount.tsx:223-225 | the name input stores the sanitised name and error as Next does |
| RestoreAccount.Screen.SubmitDisplayName | ts/components/registration/stages/RestoreAccount.tsx:150-161 | the name handler returns early or completes, as Next does |
| RestoreAccount.Screen.EnterComplete | ts/components/registration/stages/RestoreAccount.tsx:99-107 | the Complete effect opens the inbox as Next does: only on Complete and with a name |
| RestoreAccount.Screen.ContinueEnabled | ts/components/registration/stages/RestoreAccount.tsx:204-242 | the enabled state of the form's continue button: the phrase guard on the phrase form, the combined guard on the name form; never enabled without a phrase |
| SubtleNotification.OutgoingRequestExplanation | ts/components/conversation/SubtleNotification.tsx:36-52 | the pending-request notice shows iff a conversation is selected, it is an outgoing request, and it has no incoming messages |
| SubtleNotification.IncomingRequestExplanation | ts/components/conversation/SubtleNotification.tsx:58-74 | the accept-request notice shows iff a conversation is selected, it is an incoming request, and it has incoming messages |
| SubtleNotification.NoMessageInConversation | ts/components/conversation/SubtleNotification.tsx:79-111 | the empty-conversation notice is absent iff nothing is selected or there are messages; otherwise each key is chosen iff its condition holds (read-only: blinded-disabled or read-only; writable: note-to-self or the default) |
| SubtleNotification.RequestNoticesExclusive | ts/components/conversation/SubtleNotification.tsx:41-67 | the outgoing and incoming request notices are never shown together |
| SubtleNotification.ReadOnlyTakesPrecedence | ts/components/conversation/SubtleNotification.tsx:90-102 | when the conversation cannot be written to, note-to-self has no effect on the notice |

## Left out

- Timers: `setInterval`/`clearInterval`, the module-level interval handle, the `ONBOARDING_TIMES` durations, and the re-running and clean-up of the React effect. Each firing is one atomic `Tick` on the current state. Duplicate or dangling timers are not modelled.
- The `Finished` step's single delayed callback is a `Tick` on that step. Its delay is not modelled.
- The `Complete` branch of the effect is the separate event `EnterComplete`. The model does not force it to run right after the step becomes `Complete`. The inbox signal is a flag that records that it fired, not how many times.
- AccountRestoration.Next: the display-name handler runs as one step. The sign-in with the new name is an instant no-op, so no event falls between the guard (line 151) and the dispatch of `Complete` (line 160). The ensures that `Complete` is entered only with a display name depends on this: in the client, clearing the name while that sign-in is pending reaches `Complete` with an empty name, and the inbox is not opened.
- RestoreAccount.Screen.SubmitDisplayName: runs the display-name handler as one step, for the same reason as `AccountRestoration.Next` above.
- The network calls. `signInAndFetchDisplayName` is the `outcome` parameter. Its `errorCallback`, which may set the phrase error from inside that call, is not part of this model. `signInWithNewDisplayName` always succeeds.
- `sanitizeDisplayNameOrToast` is not part of this model. Its resulting name and error are the inputs of `EditName`.
- The store, its selectors and hooks: their values are plain inputs. The conversation key is reduced to whether one is selected.
- Localised text: errors and notices are modelled by their localisation keys (`RecoveryPhraseEmpty` is the key of the empty-phrase message), not by translated strings.
- Which screen renders which form. The handlers are modelled for any step, because they themselves do not check it. The back button, layout and logging are left out too.
- `ts/components/search/SearchResults.tsx`: list virtualisation and row layout only; no decision logic is modelled.
