/** The admin's first-run wizard: the user picks a folder; a folder that
    already holds a library is saved as the library path, an empty one is
    offered for a new library first. The settings repository's answers are
    parameters; what the wizard asked of it is kept as a trace. */
module SetupWizard {
  import opened Wrappers
  import opened MockRepositories

  const ValidateFailed := "Failed to validate folder"
  const CreateFailed := "Failed to create library"

  datatype Step = Welcome | Select | ConfirmNew

  /** How an awaited repository call ended: with its value, or by throwing;
      a thrown `Error` carries its message, anything else thrown is `None`. */
  datatype Answer<T> = Returned(value: T) | Threw(message: Option<string>)

  /** A call made on the settings repository. */
  datatype Call =
    | SelectLibraryPath
    | ValidateLibraryPath(path: string)
    | InitializeLibrary(path: string)
    | SaveLibraryPath(path: string)

  /** The wizard's state: its step, the folder picked, the error line, the
      loading flag, the calls made so far, and whether `onComplete` has been
      called. */
  datatype Wizard = Wizard(
    step: Step,
    selectedPath: Option<string>,
    error: Option<string>,
    loading: bool,
    calls: seq<Call>,
    completed: bool)

  const Initial := Wizard(Welcome, None, None, false, [], false)

  /** The error line a `catch` shows: the `Error`'s message, or the
      handler's own fallback. */
  function ErrorLine(message: Option<string>, fallback: string): string {
    if message.Some? then message.value else fallback
  }

  /** A picked path JavaScript counts as a folder: not `null` and not empty. */
  predicate Picked(path: Option<string>) {
    path.Some? && |path.value| > 0
  }

  /** `handleSelectFolder`, given the picker's answer and the answers of the
      validation and of the save. */
  function AfterSelect(w: Wizard, picked: Option<string>, validation: Answer<LibraryValidation>, saved: Answer<()>)
    : (r: Wizard)
    ensures !Picked(picked) ==> r == w.(error := None, calls := w.calls + [SelectLibraryPath])
    ensures Picked(picked) ==> r.selectedPath == picked && !r.loading
    ensures r.step == w.step || r.step == ConfirmNew
    ensures w.calls <= r.calls
    ensures r.completed && !w.completed ==>
      Picked(picked) && |r.calls| > 0 && r.calls[|r.calls| - 1] == SaveLibraryPath(picked.value)
  {
    if !Picked(picked) then w.(error := None, calls := w.calls + [SelectLibraryPath])
    else Validated(w.(error := None, selectedPath := picked, loading := false,
                      calls := w.calls + [SelectLibraryPath, ValidateLibraryPath(picked.value)]),
                   picked.value, validation, saved)
  }

  /** What `handleSelectFolder` does once the validation of `path` has
      answered: a valid library is saved and the wizard completes; an
      invalid one moves to the confirmation step; a throw from either call
      shows its error line. */
  function Validated(w: Wizard, path: string, validation: Answer<LibraryValidation>, saved: Answer<()>): Wizard {
    match validation
    case Threw(m) => w.(error := Some(ErrorLine(m, ValidateFailed)))
    case Returned(v) =>
      if !v.isValid then w.(step := ConfirmNew)
      else Completed(w.(calls := w.calls + [SaveLibraryPath(path)]), saved, ValidateFailed)
  }

  /** The end of a save: `onComplete` is called when it returned, its error
      line is shown when it threw. */
  function Completed(w: Wizard, saved: Answer<()>, fallback: string): Wizard {
    match saved
    case Returned(_) => w.(completed := true)
    case Threw(m) => w.(error := Some(ErrorLine(m, fallback)))
  }

  /** `handleCreateNewLibrary`, given the answers of the initialisation and
      of the save. Without a picked folder nothing happens, not even the
      clearing of the error line. */
  function AfterCreate(w: Wizard, initialized: Answer<()>, saved: Answer<()>): (r: Wizard)
    ensures !Picked(w.selectedPath) ==> r == w
    ensures r.step == w.step && r.selectedPath == w.selectedPath
    ensures Picked(w.selectedPath) ==> !r.loading
    ensures w.calls <= r.calls
    ensures r.completed && !w.completed ==>
      Picked(w.selectedPath) && |r.calls| > 0 && r.calls[|r.calls| - 1] == SaveLibraryPath(w.selectedPath.value)
  {
    if !Picked(w.selectedPath) then w
    else
      var p := w.selectedPath.value;
      var w1 := w.(error := None, loading := false, calls := w.calls + [InitializeLibrary(p)]);
      match initialized
      case Threw(m) => w1.(error := Some(ErrorLine(m, CreateFailed)))
      case Returned(_) => Completed(w1.(calls := w1.calls + [SaveLibraryPath(p)]), saved, CreateFailed)
  }

  /** `handleChooseDifferent`: back to the start, with no folder picked. */
  function ChooseDifferent(w: Wizard): (r: Wizard)
    ensures r.step == Welcome && r.selectedPath.None?
    ensures r.error == w.error && r.calls == w.calls && r.completed == w.completed
  {
    w.(selectedPath := None, step := Welcome)
  }

  // ---------------------------------------------------------------------
  // What the handlers promise.

  /** A folder that holds a library is saved as the library path and the
      wizard completes, without leaving its step; the calls made are the
      pick, the validation and the save, in that order. */
  lemma SelectLibraryCompletes(w: Wizard, path: string, v: LibraryValidation)
    requires |path| > 0 && v.isValid
    ensures var r := AfterSelect(w, Some(path), Returned(v), Returned(()));
      && r.completed && r.error.None? && r.step == w.step
      && r.calls == w.calls + [SelectLibraryPath, ValidateLibraryPath(path), SaveLibraryPath(path)]
  {
  }

  /** A folder that is not a library moves to the confirmation step with
      the folder kept, and nothing is saved. */
  lemma SelectEmptyAsks(w: Wizard, path: string, v: LibraryValidation)
    requires |path| > 0 && !v.isValid
    ensures forall saved: Answer<()> ::
      var r := AfterSelect(w, Some(path), Returned(v), saved);
      && r.step == ConfirmNew && r.selectedPath == Some(path) && r.completed == w.completed
      && r.calls == w.calls + [SelectLibraryPath, ValidateLibraryPath(path)]
  {
  }

  /** A validation or a save that throws leaves the step and shows the
      error's message, or "Failed to validate folder" for anything other
      than an `Error`; the wizard does not complete. */
  lemma SelectFailureShown(w: Wizard, path: string, validation: Answer<LibraryValidation>, saved: Answer<()>)
    requires |path| > 0
    requires validation.Threw? || (validation.value.isValid && saved.Threw?)
    ensures var r := AfterSelect(w, Some(path), validation, saved);
      var m := if validation.Threw? then validation.message else saved.message;
      && r.step == w.step && r.completed == w.completed
      && r.error == Some(if m.Some? then m.value else ValidateFailed)
  {
  }

  /** A new library is initialised before it is saved, and the wizard
      completes only when both returned. */
  lemma CreateInitialisesThenSaves(w: Wizard, initialized: Answer<()>, saved: Answer<()>)
    requires Picked(w.selectedPath)
    ensures var r := AfterCreate(w, initialized, saved);
      var p := w.selectedPath.value;
      && (r.completed <==> w.completed || (initialized.Returned? && saved.Returned?))
      && (initialized.Returned? ==> r.calls == w.calls + [InitializeLibrary(p), SaveLibraryPath(p)])
      && (initialized.Threw? ==> r.calls == w.calls + [InitializeLibrary(p)]
                                 && r.error == Some(ErrorLine(initialized.message, CreateFailed)))
  {
  }

  /** After choosing a different folder, creating a library does nothing. */
  lemma ChooseDifferentDisablesCreate(w: Wizard, initialized: Answer<()>, saved: Answer<()>)
    ensures AfterCreate(ChooseDifferent(w), initialized, saved) == ChooseDifferent(w)
  {
  }

  /** The whole path through an empty folder: pick it, confirm, and the
      library is created there and saved as the library path. */
  lemma NewLibraryFlow(path: string, v: LibraryValidation)
    requires |path| > 0 && !v.isValid
    ensures var asked := AfterSelect(Initial, Some(path), Returned(v), Returned(()));
      var r := AfterCreate(asked, Returned(()), Returned(()));
      && asked.step == ConfirmNew && !asked.completed
      && r.completed && r.error.None?
      && r.calls == [SelectLibraryPath, ValidateLibraryPath(path), InitializeLibrary(path), SaveLibraryPath(path)]
  {
  }

  // ---------------------------------------------------------------------
  // States the handlers can reach.

  /** The states the wizard keeps between handlers: never loading, never
      on the `select` step (no handler sets it), and completed only after a
      save of the library path was made. */
  ghost predicate Settled(w: Wizard) {
    && !w.loading
    && w.step != Select
    && (w.completed ==> exists i :: 0 <= i < |w.calls| && w.calls[i].SaveLibraryPath?)
  }

  lemma {:induction false} InitialSettled()
    ensures Settled(Initial)
  {
  }

  /** Each handler keeps the wizard settled. */
  lemma SelectKeepsSettled(w: Wizard, picked: Option<string>, validation: Answer<LibraryValidation>, saved: Answer<()>)
    requires Settled(w)
    ensures Settled(AfterSelect(w, picked, validation, saved))
  {
    CallsKeepSave(w, AfterSelect(w, picked, validation, saved));
  }

  lemma CreateKeepsSettled(w: Wizard, initialized: Answer<()>, saved: Answer<()>)
    requires Settled(w)
    ensures Settled(AfterCreate(w, initialized, saved))
  {
    CallsKeepSave(w, AfterCreate(w, initialized, saved));
  }

  lemma ChooseDifferentKeepsSettled(w: Wizard)
    requires Settled(w)
    ensures Settled(ChooseDifferent(w))
  {
  }

  /** A completion made by a handler is backed by a save: an earlier one, or
      the handler's last call. */
  lemma CallsKeepSave(w: Wizard, r: Wizard)
    requires Settled(w) && w.calls <= r.calls
    requires r.completed && !w.completed ==> |r.calls| > 0 && r.calls[|r.calls| - 1].SaveLibraryPath?
    ensures r.completed ==> exists i :: 0 <= i < |r.calls| && r.calls[i].SaveLibraryPath?
  {
    if r.completed && w.completed {
      var i :| 0 <= i < |w.calls| && w.calls[i].SaveLibraryPath?;
      assert r.calls[i] == w.calls[i];
    }
  }

  /** The wizard's state, updated in place by its handlers. */
  class View {
    var step: Step
    var selectedPath: Option<string>
    var error: Option<string>
    var loading: bool
    var calls: seq<Call>
    var completed: bool

    function State(): Wizard
      reads this
    {
      Wizard(step, selectedPath, error, loading, calls, completed)
    }

    constructor ()
      ensures State() == Initial
    {
      step := Welcome;
      selectedPath := None;
      error := None;
      loading := false;
      calls := [];
      completed := false;
    }

    /** `handleSelectFolder`; `picked` is the folder picker's answer. */
    method SelectFolder(picked: Option<string>, validation: Answer<LibraryValidation>, saved: Answer<()>)
      modifies this
      ensures State() == AfterSelect(old(State()), picked, validation, saved)
    {
      error := None;
      calls := calls + [SelectLibraryPath];
      if picked.None? || |picked.value| == 0 {
        return;
      }
      var path := picked.value;
      selectedPath := picked;
      loading := true;
      calls := calls + [ValidateLibraryPath(path)];
      if validation.Threw? {
        error := Some(ErrorLine(validation.message, ValidateFailed));
      } else if validation.value.isValid {
        calls := calls + [SaveLibraryPath(path)];
        Finish(saved, ValidateFailed);
      } else {
        step := ConfirmNew;
      }
      loading := false;
    }

    /** What a handler does once its save has answered. */
    method Finish(saved: Answer<()>, fallback: string)
      modifies this
      ensures State() == Completed(old(State()), saved, fallback)
    {
      if saved.Returned? {
        completed := true;
      } else {
        error := Some(ErrorLine(saved.message, fallback));
      }
    }

    /** `handleCreateNewLibrary`. */
    method CreateNewLibrary(initialized: Answer<()>, saved: Answer<()>)
      modifies this
      ensures State() == AfterCreate(old(State()), initialized, saved)
    {
      if selectedPath.None? || |selectedPath.value| == 0 {
        return;
      }
      var path := selectedPath.value;
      loading := true;
      error := None;
      calls := calls + [InitializeLibrary(path)];
      if initialized.Threw? {
        error := Some(ErrorLine(initialized.message, CreateFailed));
      } else {
        calls := calls + [SaveLibraryPath(path)];
        Finish(saved, CreateFailed);
      }
      loading := false;
    }

    /** `handleChooseDifferent`. */
    method ChooseDifferentFolder()
      modifies this
      ensures State() == ChooseDifferent(old(State()))
    {
      selectedPath := None;
      step := Welcome;
    }
  }
}
