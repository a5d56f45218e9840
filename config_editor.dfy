/** The admin's site settings editor: the title, subtitle and footer text
    of the site, loaded from and saved to the configuration through the
    desktop engine. */
module ConfigEditor {
  import opened Wrappers
  import opened Text
  import opened Types
  import opened Files
  import opened SiteBuild
  import opened EngineHandlers
  import opened DesktopEngine

  const LoadFailed := "Failed to load configuration"

  /** The three text fields of the form. */
  datatype Fields = Fields(siteTitle: string, siteSubtitle: string, footerText: string)

  /** The editor's state: the configuration last loaded or saved (`None`
      until one is), the form, the loading and saving flags, whether the
      success notice is shown and the error line. */
  datatype Screen = Screen(
    config: Option<Config>,
    form: Fields,
    loading: bool,
    saving: bool,
    success: bool,
    error: string)

  const Initial := Screen(None, Fields("", "", ""), true, false, false, "")

  /** The form filled in from a configuration. */
  function FieldsOf(c: Config): Fields {
    Fields(c.siteTitle, c.siteSubtitle, c.footerText)
  }

  /** `loadConfig`: a configuration read fills in the form; a failed read
      shows a fixed message, whatever the engine said. */
  function Loaded(s: Screen, got: Result<Config, string>): (r: Screen)
    ensures !r.loading && r.saving == s.saving && r.success == s.success
    ensures got.Success? ==> r.config == Some(got.value) && r.form == FieldsOf(got.value) && r.error == s.error
    ensures got.Failure? ==> r.config == s.config && r.form == s.form && r.error == LoadFailed
  {
    match got
    case Success(c) => s.(config := Some(c), form := FieldsOf(c), loading := false)
    case Failure(_) => s.(error := LoadFailed, loading := false)
  }

  /** `hasChanges`: a configuration is loaded and some field of the form
      differs from it. */
  predicate HasChanges(s: Screen) {
    s.config.Some? && FieldsOf(s.config.value) != s.form
  }

  /** Whether the save button is enabled. */
  predicate CanSubmit(s: Screen) {
    !s.saving && HasChanges(s)
  }

  /** A text field typed into: the other two fields keep their text. */
  function Typed(s: Screen, field: nat, value: string): (r: Screen)
    requires field < 3
    ensures r.config == s.config && r.error == s.error && r.success == s.success && r.saving == s.saving
    ensures r.form.siteTitle == (if field == 0 then value else s.form.siteTitle)
    ensures r.form.siteSubtitle == (if field == 1 then value else s.form.siteSubtitle)
    ensures r.form.footerText == (if field == 2 then value else s.form.footerText)
  {
    if field == 0 then s.(form := s.form.(siteTitle := value))
    else if field == 1 then s.(form := s.form.(siteSubtitle := value))
    else s.(form := s.form.(footerText := value))
  }

  /** The configuration `handleSubmit` saves: the loaded one with the three
      texts of the form trimmed; its shelves are kept. */
  function Updated(c: Config, f: Fields): (r: Config)
    ensures r.shelves == c.shelves
  {
    Config(Trim(f.siteTitle), Trim(f.siteSubtitle), Trim(f.footerText), c.shelves)
  }

  /** No field begins or ends with white space. */
  predicate TrimmedFields(f: Fields) {
    Trim(f.siteTitle) == f.siteTitle && Trim(f.siteSubtitle) == f.siteSubtitle && Trim(f.footerText) == f.footerText
  }

  /** `handleSubmit`, given how the save went (`None` when no save was
      made because no configuration is loaded). The error line and the
      success notice are cleared first; a finished save makes the saved
      configuration the loaded one and shows the notice. */
  function Submitted(s: Screen, saved: Option<Result<(), string>>): (r: Screen)
    requires saved.None? <==> s.config.None?
    ensures r.form == s.form && !r.saving && r.loading == s.loading
    ensures s.config.None? ==> r == s.(error := "", success := false, saving := false)
    ensures saved.Some? && saved.value.Success? ==>
      r.config == Some(Updated(s.config.value, s.form)) && r.success && r.error == ""
    ensures saved.Some? && saved.value.Failure? ==>
      r.config == s.config && !r.success && r.error == saved.value.error
  {
    var cleared := s.(error := "", success := false, saving := false);
    match saved
    case None => cleared
    case Some(Success(_)) => cleared.(config := Some(Updated(s.config.value, s.form)), success := true)
    case Some(Failure(m)) => cleared.(error := m)
  }

  /** `handleReset`: with a configuration loaded, the form goes back to it
      and the error line and notice are cleared; otherwise nothing
      changes. */
  function Reset(s: Screen): (r: Screen)
    ensures s.config.None? ==> r == s
    ensures s.config.Some? ==> !HasChanges(r) && r.error == "" && !r.success
    ensures r.config == s.config && r.saving == s.saving && r.loading == s.loading
  {
    if s.config.None? then s else s.(form := FieldsOf(s.config.value), error := "", success := false)
  }

  /** A configuration just loaded has no changes, and the save button is
      disabled until a field is edited. */
  lemma LoadedUnchanged(s: Screen, c: Config)
    ensures !HasChanges(Loaded(s, Success(c)))
    ensures !CanSubmit(Loaded(s, Success(c)))
  {
  }

  /** The save button is enabled only with a configuration loaded, so the
      early return of `handleSubmit` is never taken from it. */
  lemma CanSubmitLoaded(s: Screen)
    requires CanSubmit(s)
    ensures s.config.Some? && !s.saving
  {
  }

  /** Editing a field back to the loaded text leaves no changes when the
      other two already match. */
  lemma TypedBack(s: Screen)
    requires s.config.Some?
    requires s.form.siteSubtitle == s.config.value.siteSubtitle && s.form.footerText == s.config.value.footerText
    ensures !HasChanges(Typed(s, 0, s.config.value.siteTitle))
    ensures HasChanges(Typed(s, 0, s.config.value.siteTitle + " "))
  {
    var t := s.config.value.siteTitle;
    assert |t + " "| != |t|;
  }

  /** After a finished save the form is left as typed, so it still shows
      changes exactly when some field had white space to trim. */
  lemma SavedChanges(s: Screen)
    requires s.config.Some?
    ensures var r := Submitted(s, Some(Success(())));
      HasChanges(r) <==> !TrimmedFields(s.form)
  {
  }

  /** The saved texts are trimmed, so saving the saved configuration's own
      texts again saves the same configuration. */
  lemma UpdatedTrimmed(c: Config, f: Fields)
    ensures TrimmedFields(FieldsOf(Updated(c, f)))
    ensures Updated(Updated(c, f), FieldsOf(Updated(c, f))) == Updated(c, f)
  {
    TrimTwice(f.siteTitle);
    TrimTwice(f.siteSubtitle);
    TrimTwice(f.footerText);
  }

  /** What the site folder holds after `handleSubmit` through the engine:
      the configuration file written with the updated configuration, when
      one is loaded. */
  function SubmitRun(fs: FileSystem, site: Path, s: Screen): Run<()> {
    if s.config.None? then Done(fs, ())
    else SaveConfigRun(fs, site, Updated(s.config.value, s.form))
  }

  /** A submission through the engine: a finished save stores the updated
      configuration where the next load reads it, and the screen then holds
      that same configuration; a failed one changes no file. */
  lemma SubmitStores(fs: FileSystem, site: Path, s: Screen)
    requires s.config.Some?
    ensures var run := SubmitRun(fs, site, s);
      && (run.Done? ==> GetConfigRun(run.fs, site) == Success(Updated(s.config.value, s.form)))
      && (run.Done? ==> Loaded(s, GetConfigRun(run.fs, site)).config == Submitted(s, Some(Success(()))).config)
      && (run.Aborted? ==> run.fs == fs)
  {
    SaveConfigOutcome(fs, site, Updated(s.config.value, s.form));
  }

  /** The save `handleSubmit` makes through the engine. */
  method SaveUpdated(e: Engine, c: Config, f: Fields) returns (r: Result<(), string>)
    requires e.Valid()
    modifies e
    ensures e.Valid() && e.server == old(e.server)
    ensures e.fs == SaveConfigRun(old(e.fs), e.site, Updated(c, f)).fs
    ensures r == Outcome(SaveConfigRun(old(e.fs), e.site, Updated(c, f)))
  {
    r := e.SaveConfig(Updated(c, f));
  }

  /** The editor's state, updated in place by its handlers. */
  class View {
    var config: Option<Config>
    var form: Fields
    var loading: bool
    var saving: bool
    var success: bool
    var error: string

    function State(): Screen
      reads this
    {
      Screen(config, form, loading, saving, success, error)
    }

    constructor ()
      ensures State() == Initial
    {
      config := None;
      form := Fields("", "", "");
      loading := true;
      saving := false;
      success := false;
      error := "";
    }

    /** `loadConfig`. */
    method LoadConfig(e: Engine)
      requires e.Valid()
      modifies this
      ensures State() == Loaded(old(State()), GetConfigRun(e.fs, e.site))
    {
      var got := e.GetConfig();
      if got.Success? {
        config := Some(got.value);
        form := FieldsOf(got.value);
      } else {
        error := LoadFailed;
      }
      loading := false;
    }

    /** A change event on one of the three inputs. */
    method Type(field: nat, value: string)
      requires field < 3
      modifies this
      ensures State() == Typed(old(State()), field, value)
    {
      if field == 0 {
        form := form.(siteTitle := value);
      } else if field == 1 {
        form := form.(siteSubtitle := value);
      } else {
        form := form.(footerText := value);
      }
    }

    /** What `handleSubmit` does once the save, if any, has answered. */
    method Settle(saved: Option<Result<(), string>>)
      requires saved.None? <==> config.None?
      modifies this
      ensures State() == Submitted(old(State()), saved)
    {
      ghost var before := State();
      error := "";
      success := false;
      saving := false;
      assert State() == before.(error := "", success := false, saving := false);
      if saved.Some? {
        if saved.value.Success? {
          config := Some(Updated(config.value, form));
          success := true;
        } else {
          error := saved.value.error;
        }
      }
    }

    /** `handleSubmit`, through the engine. The `saving` flag is on only
        while the save is awaited, so it is off again afterwards. */
    method Submit(e: Engine)
      requires e.Valid()
      modifies this, e
      ensures e.Valid() && e.server == old(e.server)
      ensures e.fs == SubmitRun(old(e.fs), e.site, old(State())).fs
      ensures State() == Submitted(old(State()),
        if old(config).None? then None else Some(Outcome(SubmitRun(old(e.fs), e.site, old(State())))))
    {
      if config.None? {
        Settle(None);
      } else {
        var r := SaveUpdated(e, config.value, form);
        Settle(Some(r));
      }
    }

    /** `handleReset`. */
    method ResetForm()
      modifies this
      ensures State() == Reset(old(State()))
    {
      if config.Some? {
        form := FieldsOf(config.value);
        error := "";
        success := false;
      }
    }
  }
}
