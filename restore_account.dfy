/**
 * The restore-account screen as an object: the store's restoration step and
 * the component's state hooks are fields, and each handler, timer firing and
 * effect is a method that updates them in place.  Every method is specified by
 * the transition function of `AccountRestoration`.
 */
module RestoreAccount {
  import opened Wrappers
  import AR = AccountRestoration

  class Screen {
    var step: AR.Step
    var progress: nat
    var displayName: string
    var displayNameError: Option<string>
    var recoveryPhrase: string
    var recoveryPhraseError: Option<string>
    var inboxOpened: bool

    /** The progress bar never passes 100. */
    ghost predicate Valid()
      reads this
    {
      progress <= 100
    }

    /** The abstract value of the screen. */
    function Snapshot(): AR.State
      reads this
    {
      AR.State(step, progress, displayName, displayNameError,
               recoveryPhrase, recoveryPhraseError, inboxOpened)
    }

    /** Mounting the screen while the store holds `initial`. */
    constructor (initial: AR.Step)
      ensures Valid() && Snapshot() == AR.Mounted(initial)
    {
      step := initial;
      recoveryPhrase := "";
      recoveryPhraseError := None;
      displayName := "";
      displayNameError := Some("");
      progress := 0;
      inboxOpened := false;
    }

    /** One firing of the interval that the progress effect set up for the current step. */
    method Tick()
      requires Valid()
      modifies this
      ensures Valid() && Snapshot() == AR.Next(old(Snapshot()), AR.Tick)
    {
      // the interval's callback reads the progress captured when it was set up
      var seen := progress;
      if step == AR.Loading {
        if seen < 100 {
          progress := seen + 1;
        }
        if seen >= 100 {
          step := AR.DisplayName;
        }
      } else if step == AR.Finishing {
        if seen < 100 {
          progress := seen + 1;
        }
        if seen >= 100 {
          step := AR.Finished;
        }
      } else if step == AR.Finished {
        if displayName != "" {
          step := AR.Complete;
        } else {
          step := AR.DisplayName;
        }
      }
    }

    /** The recovery handler up to its network call: reset the bar and show Loading. */
    method StartRecovery()
      requires Valid()
      modifies this
      ensures Valid() && Snapshot() == AR.Next(old(Snapshot()), AR.StartRecovery)
    {
      progress := 0;
      step := AR.Loading;
    }

    /** The recovery handler after its network call produced `outcome`. */
    method FinishRecovery(outcome: AR.Outcome)
      requires Valid()
      modifies this
      ensures Valid() && Snapshot() == AR.Next(old(Snapshot()), AR.RecoveryResolved(outcome))
    {
      match outcome {
        case Fetched(name) =>
          displayName := name;
          step := AR.Finishing;
        case NotFound =>
          step := AR.DisplayName;
        case OtherError =>
          step := AR.RecoveryPassword;
      }
    }

    /** The recovery-phrase input changed to `seed`. */
    method EditRecoveryPhrase(seed: string)
      requires Valid()
      modifies this
      ensures Valid() && Snapshot() == AR.Next(old(Snapshot()), AR.EditPhrase(seed))
    {
      recoveryPhrase := seed;
      recoveryPhraseError := if seed == "" then Some(AR.RecoveryPhraseEmpty) else None;
    }

    /** The display-name input changed; `name` and `error` are what the sanitiser stored. */
    method EditDisplayName(name: string, error: Option<string>)
      requires Valid()
      modifies this
      ensures Valid() && Snapshot() == AR.Next(old(Snapshot()), AR.EditName(name, error))
    {
      displayName := name;
      displayNameError := error;
    }

    /** The display-name handler: complete when a name without error is present. */
    method SubmitDisplayName()
      requires Valid()
      modifies this
      ensures Valid() && Snapshot() == AR.Next(old(Snapshot()), AR.SubmitName)
    {
      if !(displayName != "" && !AR.Truthy(displayNameError)) {
        return;
      }
      step := AR.Complete;
    }

    /** The progress effect on the Complete step: open the inbox when a name is present. */
    method EnterComplete()
      requires Valid()
      modifies this
      ensures Valid() && Snapshot() == AR.Next(old(Snapshot()), AR.EnterComplete)
    {
      if step == AR.Complete {
        if displayName != "" {
          inboxOpened := true;
        }
      }
    }

    /** Whether the continue button of the form on screen is enabled. */
    method ContinueEnabled() returns (enabled: bool)
      requires step == AR.RecoveryPassword || step == AR.DisplayName
      ensures step == AR.RecoveryPassword ==>
        (enabled <==> AR.PhraseContinueEnabled(recoveryPhrase, recoveryPhraseError))
      ensures step == AR.DisplayName ==>
        (enabled <==> AR.NameContinueEnabled(recoveryPhrase, recoveryPhraseError, displayName, displayNameError))
      ensures enabled ==> recoveryPhrase != ""
    {
      enabled := recoveryPhrase != "" && !AR.Truthy(recoveryPhraseError);
      if step == AR.DisplayName {
        enabled := enabled && displayName != "" && !AR.Truthy(displayNameError);
      }
    }
  }
}
