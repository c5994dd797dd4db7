/**
 * The account-restoration wizard of the onboarding flow as one transition
 * function over the screen's state.  Every event the screen reacts to (a timer
 * firing, a handler running, the network call returning, an input changing) is
 * one atomic step of `Next`; `Run` replays a sequence of them.
 */
module AccountRestoration {
  import opened Wrappers

  /** The restoration steps, as held in the onboarding store. */
  datatype Step = RecoveryPassword | Loading | Finishing | Finished | Complete | DisplayName

  /** What the sign-in-and-fetch-display-name network call produced. */
  datatype Outcome =
    | Fetched(name: string)  // resolved with the display name stored for the account
    | NotFound               // rejected with a NotFoundError
    | OtherError             // rejected with any other error

  /**
   * The events the screen reacts to.  The recovery handler awaits the network
   * call, so it is split at that await: `StartRecovery` is its synchronous
   * prefix and `RecoveryResolved` its continuation; timer ticks may come between.
   */
  datatype Event =
    | Tick                               // one firing of the interval set up for the current step
    | StartRecovery                      // recovery handler, up to the network call
    | RecoveryResolved(outcome: Outcome) // recovery handler, after the network call
    | EditPhrase(seed: string)           // the recovery-phrase input changed
    | EditName(name: string, error: Option<string>) // display-name input, as sanitised
    | SubmitName                         // display-name handler
    | EnterComplete                      // the effect run on reaching Complete

  /** The screen's state: the store's step, the component's state hooks and the inbox signal. */
  datatype State = State(
    step: Step,
    progress: nat,
    displayName: string,
    displayNameError: Option<string>,
    recoveryPhrase: string,
    recoveryPhraseError: Option<string>,
    inboxOpened: bool)

  /** The localisation key of the message shown for an empty recovery phrase. */
  const RecoveryPhraseEmpty: string := "recoveryPhraseEmpty"

  /** JavaScript truthiness of a `string | undefined` error: undefined and "" are falsy. */
  predicate Truthy(e: Option<string>) {
    e.Some? && e.value != ""
  }

  /** Steps that run a progress-bar interval. */
  predicate HasProgressBar(step: Step) {
    step == Loading || step == Finishing
  }

  /** The state when the screen mounts on `step`: empty inputs, progress 0, inbox not opened. */
  function Mounted(step: Step): (s: State)
    ensures s.step == step && s.progress == 0 && !s.inboxOpened
    ensures s.displayName == "" && s.recoveryPhrase == ""
    ensures !Truthy(s.displayNameError) && !Truthy(s.recoveryPhraseError)
  {
    // the display-name error starts as the empty string, the phrase error as undefined
    State(step, 0, "", Some(""), "", None, false)
  }

  /** The error set when the recovery phrase is edited to `seed`. */
  function PhraseErrorAfterEdit(seed: string): (e: Option<string>)
    ensures Truthy(e) <==> seed == ""
    ensures seed != "" ==> e == None
  {
    if seed == "" then Some(RecoveryPhraseEmpty) else None
  }

  /** The continue button of the recovery-phrase form is enabled. */
  predicate PhraseContinueEnabled(phrase: string, phraseError: Option<string>)
    // the error counts as unset when it is undefined or the empty string
    ensures PhraseContinueEnabled(phrase, phraseError) <==>
      |phrase| > 0 && (phraseError == None || phraseError == Some(""))
  {
    phrase != "" && !Truthy(phraseError)
  }

  /** The display-name handler goes ahead (it returns early otherwise). */
  predicate SubmitNameAllowed(name: string, nameError: Option<string>)
    // the error counts as unset when it is undefined or the empty string
    ensures SubmitNameAllowed(name, nameError) <==>
      |name| > 0 && (nameError == None || nameError == Some(""))
  {
    name != "" && !Truthy(nameError)
  }

  /** The continue button of the display-name form is enabled. */
  function NameContinueEnabled(phrase: string, phraseError: Option<string>,
                               name: string, nameError: Option<string>): (enabled: bool)
    ensures enabled <==> PhraseContinueEnabled(phrase, phraseError) && SubmitNameAllowed(name, nameError)
    ensures enabled ==> name != "" && phrase != ""
  {
    phrase != "" && !Truthy(phraseError) && name != "" && !Truthy(nameError)
  }

  /** One atomic step of the screen. */
  function Next(s: State, e: Event): (r: State)
    // the bar is bounded by 100 and advances by exactly one, only on a tick of a barred step
    ensures s.progress <= 100 ==> r.progress <= 100
    ensures r.progress > s.progress ==>
      e == Tick && HasProgressBar(s.step) && r.step == s.step && r.progress == s.progress + 1
    // progress only goes back when recovery restarts, which zeroes it
    ensures r.progress < s.progress ==> e == StartRecovery
    ensures e == StartRecovery ==> r.step == Loading && r.progress == 0
    ensures r.step == Loading ==> s.step == Loading || e == StartRecovery
    // a step change by the timers leaves the progress where it was
    ensures e == Tick && r.step != s.step ==> r.progress == s.progress
    // Finishing is entered only on a fetched name, never by a Loading timeout
    ensures r.step == Finishing ==> s.step == Finishing || (e.RecoveryResolved? && e.outcome.Fetched?)
    // Finished is left on its first tick
    ensures e == Tick && s.step == Finished ==> r.step != Finished
    // Complete is only reached with a display name
    ensures r.step == Complete && s.step != Complete ==> r.displayName != ""
    // the inbox is opened only by the Complete effect, and only with a display name
    ensures r.inboxOpened <==> s.inboxOpened || (e == EnterComplete && s.step == Complete && s.displayName != "")
    // who may change the inputs
    ensures r.displayName != s.displayName ==> e.EditName? || (e.RecoveryResolved? && e.outcome.Fetched?)
    ensures r.displayNameError != s.displayNameError ==> e.EditName?
    ensures r.recoveryPhrase != s.recoveryPhrase || r.recoveryPhraseError != s.recoveryPhraseError ==> e.EditPhrase?
  {
    match e
    case Tick =>
      (match s.step
      case Loading =>
        // the interval's closure sees the progress of the render that set it up
        if s.progress < 100 then s.(progress := s.progress + 1)
        else s.(step := DisplayName)  // no display name in time: enter it manually
      case Finishing =>
        if s.progress < 100 then s.(progress := s.progress + 1)
        else s.(step := Finished)
      case Finished =>
        s.(step := if s.displayName != "" then Complete else DisplayName)
      case _ => s)  // no interval runs on the other steps
    case StartRecovery =>
      s.(progress := 0, step := Loading)
    case RecoveryResolved(outcome) =>
      (match outcome
      case Fetched(name) => s.(displayName := name, step := Finishing)
      case NotFound => s.(step := DisplayName)
      case OtherError => s.(step := RecoveryPassword))
    case EditPhrase(seed) =>
      s.(recoveryPhrase := seed, recoveryPhraseError := PhraseErrorAfterEdit(seed))
    case EditName(name, error) =>
      s.(displayName := name, displayNameError := error)
    case SubmitName =>
      if !SubmitNameAllowed(s.displayName, s.displayNameError) then s
      else s.(step := Complete)  // the sign-in with the new name is taken to succeed
    case EnterComplete =>
      if s.step == Complete && s.displayName != "" then s.(inboxOpened := true) else s
  }

  /** The state after the events `es`, in order. */
  function Run(s: State, es: seq<Event>): (r: State)
    ensures s.progress <= 100 ==> r.progress <= 100
    ensures r.progress < s.progress ==> StartRecovery in es
    ensures r.inboxOpened ==> s.inboxOpened || EnterComplete in es
    ensures r.displayName != s.displayName ==>
      exists i :: 0 <= i < |es| && (es[i].EditName? || (es[i].RecoveryResolved? && es[i].outcome.Fetched?))
    decreases |es|
  {
    if es == [] then s
    else
      var r := Run(Next(s, es[0]), es[1..]);
      assert r.displayName != s.displayName ==> r.displayName != Next(s, es[0]).displayName || Next(s, es[0]).displayName != s.displayName;
      assert forall i :: 0 <= i < |es| - 1 ==> es[1..][i] == es[i + 1];
      r
  }

  /** The state after `n` timer ticks. */
  function Ticks(s: State, n: nat): State
    decreases n
  {
    if n == 0 then s else Ticks(Next(s, Tick), n - 1)
  }

  /** A run of `n` ticks. */
  function TickEvents(n: nat): (es: seq<Event>)
    ensures |es| == n && forall i :: 0 <= i < n ==> es[i] == Tick
  {
    seq(n, _ => Tick)
  }

  // ---------------------------------------------------------------------------
  // Single steps
  // ---------------------------------------------------------------------------

  /** Below 100, a tick of a barred step raises the progress by one and keeps the step. */
  lemma TickFillsBar(s: State)
    requires HasProgressBar(s.step) && s.progress < 100
    ensures Next(s, Tick) == s.(progress := s.progress + 1)
  {
  }

  /** A Loading tick at 100 goes to manual display-name entry, not to Finishing, and keeps the progress. */
  lemma LoadingTimeout(s: State)
    requires s.step == Loading && s.progress >= 100
    ensures Next(s, Tick) == s.(step := DisplayName)
  {
  }

  /** A Finishing tick at 100 goes to Finished and keeps the progress. */
  lemma FinishingDone(s: State)
    requires s.step == Finishing && s.progress >= 100
    ensures Next(s, Tick) == s.(step := Finished)
  {
  }

  /** The single Finished tick goes to Complete with a display name, else to manual entry. */
  lemma FinishedDecides(s: State)
    requires s.step == Finished
    ensures Next(s, Tick) == s.(step := if s.displayName != "" then Complete else DisplayName)
  {
  }

  /** Recovery restarts from Loading at 0; its outcome decides the next step, and a fetched name keeps the progress. */
  lemma RecoveryOutcomes(s: State, name: string)
    ensures Next(s, StartRecovery) == s.(step := Loading, progress := 0)
    ensures Next(s, RecoveryResolved(Fetched(name))) == s.(step := Finishing, displayName := name)
    ensures Next(s, RecoveryResolved(NotFound)) == s.(step := DisplayName)
    ensures Next(s, RecoveryResolved(OtherError)) == s.(step := RecoveryPassword)
  {
  }

  /** Submitting a display name changes nothing unless the name is set and has no error; then it completes. */
  lemma SubmitNameOutcome(s: State)
    ensures Next(s, SubmitName) ==
      if SubmitNameAllowed(s.displayName, s.displayNameError) then s.(step := Complete) else s
  {
  }

  /** Editing the phrase enables the phrase button exactly when the new phrase is non-empty. */
  lemma EditPhraseEnables(s: State, seed: string)
    ensures var r := Next(s, EditPhrase(seed));
      r.recoveryPhrase == seed &&
      (Truthy(r.recoveryPhraseError) <==> seed == "") &&
      (PhraseContinueEnabled(r.recoveryPhrase, r.recoveryPhraseError) <==> seed != "")
  {
  }

  /**
   * The handlers do not consult the buttons' guards: from every state, Enter on
   * the phrase starts recovery whatever the phrase button says, and Enter on the
   * display name completes whenever the handler's own guard holds, whatever the
   * phrase half of the display-name button says.  The two fixed states show
   * each button disabled while its handler still goes ahead.
   */
  lemma EnterKeyBypassesButtons(s: State)
    ensures Next(s, StartRecovery).step == Loading
    ensures SubmitNameAllowed(s.displayName, s.displayNameError) ==> Next(s, SubmitName).step == Complete
    ensures !SubmitNameAllowed(s.displayName, s.displayNameError) ==> Next(s, SubmitName) == s
    ensures var s := Mounted(RecoveryPassword);
      !PhraseContinueEnabled(s.recoveryPhrase, s.recoveryPhraseError) &&
      Next(s, StartRecovery).step == Loading
    ensures var s := Mounted(DisplayName).(displayName := "Alice");
      !NameContinueEnabled(s.recoveryPhrase, s.recoveryPhraseError, s.displayName, s.displayNameError) &&
      Next(s, SubmitName).step == Complete
  {
  }

  // ---------------------------------------------------------------------------
  // Runs of ticks and whole scenarios
  // ---------------------------------------------------------------------------

  lemma OneTick(s: State)
    ensures Ticks(s, 1) == Next(s, Tick)
  {
    assert Ticks(s, 1) == Ticks(Next(s, Tick), 0);
  }

  lemma TicksThenOne(s: State, n: nat)
    ensures Ticks(s, n + 1) == Next(Ticks(s, n), Tick)
  {
    TicksAdd(s, n, 1);
    OneTick(Ticks(s, n));
  }

  lemma {:induction false} TicksAdd(s: State, m: nat, n: nat)
    ensures Ticks(s, m + n) == Ticks(Ticks(s, m), n)
    decreases m
  {
    if m > 0 {
      TicksAdd(Next(s, Tick), m - 1, n);
    }
  }

  lemma {:induction false} RunAppend(s: State, a: seq<Event>, b: seq<Event>)
    ensures Run(s, a + b) == Run(Run(s, a), b)
    decreases |a|
  {
    if a != [] {
      assert (a + b)[0] == a[0];
      assert (a + b)[1..] == a[1..] + b;
      assert Run(s, a + b) == Run(Next(s, a[0]), a[1..] + b);
      assert Run(s, a) == Run(Next(s, a[0]), a[1..]);
      RunAppend(Next(s, a[0]), a[1..], b);
    } else {
      assert a + b == b;
    }
  }

  lemma {:induction false} RunTicks(s: State, n: nat)
    ensures Run(s, TickEvents(n)) == Ticks(s, n)
    decreases n
  {
    if n > 0 {
      assert TickEvents(n)[1..] == TickEvents(n - 1);
      RunTicks(Next(s, Tick), n - 1);
    }
  }

  /** `n` ticks of a barred step that stay within 100 add `n` to the progress and change nothing else. */
  lemma {:induction false} FillBar(s: State, n: nat)
    requires HasProgressBar(s.step) && s.progress + n <= 100
    ensures Ticks(s, n) == s.(progress := s.progress + n)
    decreases n
  {
    if n > 0 {
      TickFillsBar(s);
      FillBar(Next(s, Tick), n - 1);
    }
  }

  /**
   * Without a network reply, Loading fills the bar to 100 and the tick after
   * that moves to manual display-name entry; Finishing is never visited.
   */
  lemma LoadingRunsOut(s: State)
    requires s.step == Loading && s.progress <= 100
    ensures forall k :: 0 <= k <= 100 - s.progress ==> Ticks(s, k) == s.(progress := s.progress + k)
    ensures Ticks(s, 101 - s.progress) == s.(progress := 100, step := DisplayName)
  {
    forall k | 0 <= k <= 100 - s.progress
      ensures Ticks(s, k) == s.(progress := s.progress + k)
    {
      FillBar(s, k);
    }
    TicksAdd(s, 100 - s.progress, 1);
  }

  /**
   * Finishing from progress `p` takes 100 - p ticks to fill the bar and one more
   * to reach Finished; the tick after that reaches Complete when a name is set.
   */
  lemma FinishingRunsOut(s: State)
    requires s.step == Finishing && s.progress <= 100
    ensures Ticks(s, 101 - s.progress) == s.(progress := 100, step := Finished)
    ensures Ticks(s, 102 - s.progress) ==
      s.(progress := 100, step := if s.displayName != "" then Complete else DisplayName)
  {
    var n := 100 - s.progress;
    var full := s.(progress := 100);
    var finished := full.(step := Finished);
    FillBar(s, n);
    TicksThenOne(s, n);
    FinishingDone(full);
    TicksThenOne(s, n + 1);
    FinishedDecides(finished);
  }

  lemma RunSingle(s: State, e: Event)
    ensures Run(s, [e]) == Next(s, e)
  {
    assert [e][1..] == [];
  }

  /** A reply that arrives after `k` <= 100 loading ticks finds Loading at progress `k`. */
  lemma {:induction false} ReplyWhileLoading(s: State, k: nat, o: Outcome)
    requires k <= 100
    ensures Run(s, [StartRecovery] + TickEvents(k)) == s.(step := Loading, progress := k)
    ensures Run(s, [StartRecovery] + TickEvents(k) + [RecoveryResolved(o)]) ==
      Next(s.(step := Loading, progress := k), RecoveryResolved(o))
  {
    var s0 := Next(s, StartRecovery);
    RunSingle(s, StartRecovery);
    RunAppend(s, [StartRecovery], TickEvents(k));
    RunTicks(s0, k);
    FillBar(s0, k);
    RunAppend(s, [StartRecovery] + TickEvents(k), [RecoveryResolved(o)]);
    RunSingle(Ticks(s0, k), RecoveryResolved(o));
  }

  /**
   * A successful recovery: the reply arrives after `k` Loading ticks, Finishing
   * continues from `k` rather than from 0, and the Complete effect opens the
   * inbox with the fetched name.
   */
  lemma {:induction false} SuccessfulRecovery(s: State, k: nat, name: string)
    requires k <= 100 && name != ""
    ensures var r := Run(s, [StartRecovery] + TickEvents(k) + [RecoveryResolved(Fetched(name))]);
      r.step == Finishing && r.progress == k && r.displayName == name
    ensures var r := Run(s, [StartRecovery] + TickEvents(k) + [RecoveryResolved(Fetched(name))]
                            + TickEvents(102 - k) + [EnterComplete]);
      r.step == Complete && r.progress == 100 && r.displayName == name && r.inboxOpened
  {
    var prefix := [StartRecovery] + TickEvents(k) + [RecoveryResolved(Fetched(name))];
    ReplyWhileLoading(s, k, Fetched(name));
    var s2 := s.(step := Finishing, progress := k, displayName := name);
    assert Run(s, prefix) == s2;
    RunAppend(s, prefix, TickEvents(102 - k));
    RunTicks(s2, 102 - k);
    FinishingRunsOut(s2);
    var s3 := s2.(progress := 100, step := Complete);
    assert Run(s, prefix + TickEvents(102 - k)) == s3;
    RunAppend(s, prefix + TickEvents(102 - k), [EnterComplete]);
    RunSingle(s3, EnterComplete);
  }

  /** A NotFound reply goes straight to manual display-name entry, wherever Loading had got to. */
  lemma {:induction false} RecoveryNotFound(s: State, k: nat)
    requires k <= 100
    ensures var r := Run(s, [StartRecovery] + TickEvents(k) + [RecoveryResolved(NotFound)]);
      r.step == DisplayName && r.progress == k
  {
    ReplyWhileLoading(s, k, NotFound);
  }

  /** Ticks change nothing on the steps that run no interval. */
  lemma {:induction false} IdleTicks(s: State, n: nat)
    requires s.step == RecoveryPassword || s.step == DisplayName || s.step == Complete
    ensures Ticks(s, n) == s
    decreases n
  {
    if n > 0 {
      IdleTicks(Next(s, Tick), n - 1);
    }
  }

  /**
   * The reply is not checked against the current step: a name that arrives
   * after Loading timed out (any `k` > 100 ticks after the start) takes the
   * screen from manual entry back to Finishing, with the bar already full.
   */
  lemma {:induction false} LateReplyLeavesManualEntry(s: State, k: nat, name: string)
    requires k > 100
    ensures var r := Run(s, [StartRecovery] + TickEvents(k));
      r.step == DisplayName && r.progress == 100
    ensures var r := Run(s, [StartRecovery] + TickEvents(k) + [RecoveryResolved(Fetched(name))]);
      r.step == Finishing && r.progress == 100 && r.displayName == name
  {
    var s0 := Next(s, StartRecovery);
    RunSingle(s, StartRecovery);
    RunAppend(s, [StartRecovery], TickEvents(k));
    RunTicks(s0, k);
    var full := s0.(progress := 100);
    var s1 := full.(step := DisplayName);
    FillBar(s0, 100);
    TicksThenOne(s0, 100);
    LoadingTimeout(full);
    assert Ticks(s0, 101) == s1;
    TicksAdd(s0, 101, k - 101);
    IdleTicks(s1, k - 101);
    assert Run(s, [StartRecovery] + TickEvents(k)) == s1;
    RunAppend(s, [StartRecovery] + TickEvents(k), [RecoveryResolved(Fetched(name))]);
    RunSingle(s1, RecoveryResolved(Fetched(name)));
  }
}
