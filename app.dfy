/**
 * The older flag-based loop of src/app.rs: two booleans instead of a state,
 * an `OpenFile` and the `FilePath` being typed in the save prompt. Keys in
 * save mode go to `save_events`, all others to `edit_events`, and `run`
 * returns once `is_quitting` is set. This precursor edits nothing and writes
 * no file: Enter in save mode only copies the typed path into the open file.
 */
module App {
  import opened Keys
  import opened Buffer
  import opened FilePaths

  datatype Flags = Flags(quitting: bool, saving: bool)

  /** What `edit_events` does to the flags: Ctrl+c quits, Ctrl+s opens the save prompt. */
  function EditFlags(f: Flags, key: KeyEvent): (g: Flags)
    ensures g.quitting == (f.quitting || IsCtrl(key, 'c'))
    ensures g.saving == (f.saving || IsCtrl(key, 's'))
  {
    if IsCtrl(key, 'c') then f.(quitting := true)
    else if IsCtrl(key, 's') then f.(saving := true)
    else f
  }

  /** What `save_events` does to the flags: Ctrl+c closes the save prompt, nothing quits. */
  function SaveFlags(f: Flags, key: KeyEvent): (g: Flags)
    ensures g.quitting == f.quitting
    ensures g.saving == (f.saving && !IsCtrl(key, 'c'))
  {
    if IsCtrl(key, 'c') then f.(saving := false) else f
  }

  /** One event of `run`: keys go to `save_events` in save mode, else to `edit_events`. */
  function StepFlags(f: Flags, event: Event): (g: Flags)
    ensures event.NonKey? ==> g == f
    ensures g.quitting && !f.quitting ==> !f.saving && IsCtrl(event.key, 'c')
    ensures f.saving && event.Key? ==> g == SaveFlags(f, event.key)
    ensures !f.saving && event.Key? ==> g == EditFlags(f, event.key)
  {
    if event.Key? then
      if f.saving then SaveFlags(f, event.key) else EditFlags(f, event.key)
    else f
  }

  /**
   * The flags after `run` has consumed events from `events` until quitting,
   * and how many it consumed. The source polls forever; here the input may
   * run out first.
   */
  function RunFlags(f: Flags, events: seq<Event>): (r: (Flags, nat))
    ensures r.1 <= |events|
    ensures r.0.quitting || r.1 == |events|
    ensures f.quitting ==> r == (f, 0)
    decreases |events|
  {
    if f.quitting || events == [] then (f, 0)
    else
      var rest := RunFlags(StepFlags(f, events[0]), events[1..]);
      (rest.0, rest.1 + 1)
  }

  predicate IsCtrlCAt(events: seq<Event>, i: nat)
    requires i < |events|
  {
    events[i].Key? && IsCtrl(events[i].key, 'c')
  }

  /** `run` consumes nothing more after the event that made it quit, which was a Ctrl+c. */
  lemma {:induction false} QuitsRightAfterCtrlC(f: Flags, events: seq<Event>)
    requires !f.quitting && RunFlags(f, events).0.quitting
    ensures RunFlags(f, events).1 >= 1 && IsCtrlCAt(events, RunFlags(f, events).1 - 1)
    decreases |events|
  {
    var g := StepFlags(f, events[0]);
    if !g.quitting {
      QuitsRightAfterCtrlC(g, events[1..]);
    }
  }

  /** In edit mode a Ctrl+c ends the run at once, after that one event. */
  lemma CtrlCQuitsAtOnce(f: Flags, events: seq<Event>)
    requires !f.quitting && !f.saving && events != [] && IsCtrlCAt(events, 0)
    ensures RunFlags(f, events) == (Flags(true, false), 1)
  {
  }

  class App {
    var isQuitting: bool
    var isSaving: bool
    /** The open file's lines and cursor; its `path` field is `openFilePath`. */
    var openFile: File
    var openFilePath: FilePath
    var filePath: FilePath

    function Mode(): Flags
      reads this
    {
      Flags(isQuitting, isSaving)
    }

    ghost predicate Valid()
      reads this, openFile
    {
      openFilePath != filePath && openFile.Valid()
    }

    /** The locals `run` starts with (app.rs:42-45). */
    constructor ()
      ensures Valid() && !isQuitting && !isSaving
      ensures fresh(openFile) && fresh(openFilePath) && fresh(filePath)
      ensures openFilePath.path == [] && filePath.path == []
    {
      isQuitting, isSaving := false, false;
      openFile := new File();
      openFilePath := new FilePath();
      filePath := new FilePath();
    }

    /** `edit_events` (app.rs:21-28). */
    method EditEvents(key: KeyEvent)
      requires Valid()
      modifies this`isQuitting, this`isSaving, filePath
      ensures Valid() && Mode() == EditFlags(old(Mode()), key)
      ensures IsCtrl(key, 's') ==>
        filePath.path == openFilePath.path && filePath.cursor == openFilePath.cursor &&
        filePath.offset == openFilePath.offset
      ensures !IsCtrl(key, 's') ==>
        filePath.path == old(filePath.path) && filePath.cursor == old(filePath.cursor) &&
        filePath.offset == old(filePath.offset)
    {
      if key.modifiers == CONTROL && key.code == Char('c') {
        isQuitting := true;
      } else if key.modifiers == CONTROL && key.code == Char('s') {
        isSaving := true;
        filePath.CloneFrom(openFilePath);
      }
    }

    /** `save_events` (app.rs:30-37). */
    method SaveEvents(key: KeyEvent)
      requires Valid()
      modifies this`isSaving, openFilePath
      ensures Valid() && Mode() == SaveFlags(old(Mode()), key)
      ensures !IsCtrl(key, 'c') && key.code == Enter ==>
        openFilePath.path == filePath.path && openFilePath.cursor == filePath.cursor &&
        openFilePath.offset == filePath.offset
      ensures IsCtrl(key, 'c') || key.code != Enter ==>
        openFilePath.path == old(openFilePath.path) && openFilePath.cursor == old(openFilePath.cursor) &&
        openFilePath.offset == old(openFilePath.offset)
    {
      if key.modifiers == CONTROL && key.code == Char('c') {
        isSaving := false;
      } else if key.code == Enter {
        openFilePath.CloneFrom(filePath);
      }
    }

    /** The dispatch inside `run`'s loop (app.rs:55-61). */
    method Step(event: Event)
      requires Valid()
      modifies this`isQuitting, this`isSaving, filePath, openFilePath
      ensures Valid() && Mode() == StepFlags(old(Mode()), event)
      ensures event.NonKey? || !old(isSaving) ==>
        openFilePath.path == old(openFilePath.path) && openFilePath.cursor == old(openFilePath.cursor) &&
        openFilePath.offset == old(openFilePath.offset)
      ensures event.NonKey? || old(isSaving) ==>
        filePath.path == old(filePath.path) && filePath.cursor == old(filePath.cursor) &&
        filePath.offset == old(filePath.offset)
      ensures event.Key? && old(isSaving) && !IsCtrl(event.key, 'c') && event.key.code == Enter ==>
        openFilePath.path == filePath.path && openFilePath.cursor == filePath.cursor &&
        openFilePath.offset == filePath.offset
      ensures event.Key? && !old(isSaving) && IsCtrl(event.key, 's') ==>
        filePath.path == openFilePath.path && filePath.cursor == openFilePath.cursor &&
        filePath.offset == openFilePath.offset
      ensures event.Key? && old(isSaving) && (IsCtrl(event.key, 'c') || event.key.code != Enter) ==>
        openFilePath.path == old(openFilePath.path) && openFilePath.cursor == old(openFilePath.cursor) &&
        openFilePath.offset == old(openFilePath.offset)
      ensures event.Key? && !old(isSaving) && !IsCtrl(event.key, 's') ==>
        filePath.path == old(filePath.path) && filePath.cursor == old(filePath.cursor) &&
        filePath.offset == old(filePath.offset)
    {
      if event.Key? {
        if isSaving {
          SaveEvents(event.key);
        } else {
          EditEvents(event.key);
        }
      }
    }

    /**
     * `run` (app.rs:39-64) without the drawing and the polling: consume
     * events until `is_quitting` is set, or until there are none left.
     */
    method Run(events: seq<Event>) returns (consumed: nat)
      requires Valid()
      modifies this`isQuitting, this`isSaving, filePath, openFilePath
      ensures Valid()
      ensures (Mode(), consumed) == RunFlags(old(Mode()), events)
    {
      consumed := 0;
      while true
        invariant Valid() && consumed <= |events|
        invariant (RunFlags(Mode(), events[consumed..]).0, consumed + RunFlags(Mode(), events[consumed..]).1)
               == RunFlags(old(Mode()), events)
        decreases |events| - consumed
      {
        if isQuitting {
          return;
        }
        if consumed == |events| {
          return;
        }
        assert events[consumed..][1..] == events[consumed + 1..];
        Step(events[consumed]);
        consumed := consumed + 1;
      }
    }
  }
}
