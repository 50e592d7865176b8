/**
 * The mode state machine of src/app/functionality.rs. The editor is in one
 * of four states; key events either edit the buffer, edit one of two
 * prompts, or move between states, and Enter in the prompts runs `save`.
 *
 * `Data`, `State` and the prompt type are not part of this model beyond what
 * functionality.rs uses of them: `Data` is the class below, holding the
 * state, the buffer, two prompts and the filesystem `save` writes to. A
 * prompt is an opaque value of type `P`; what functionality.rs calls on it
 * (`get_answer`, `set_answer` and the four editing actions) is passed in as
 * `PromptOps`, and nothing more is assumed about it.
 */
module Functionality {
  import opened Keys
  import opened Buffer
  import opened SaveFile
  import opened Utf8
  import opened Optional
  import Lines

  datatype State = Editing | Saving | Overwriting | Quitting

  /** How handling an event ends: normally, or in one of the source's `panic!`s. */
  datatype Outcome = Continue | Panic(message: seq<char>)

  /** The prompt editing actions functionality.rs calls. */
  datatype PromptKey = PromptLeft | PromptRight | PromptBackspace | PromptDelete | PromptWrite(ch: char)

  datatype PromptOps<!P> = PromptOps(answer: P -> seq<char>, setAnswer: (P, seq<char>) -> P, edit: (P, PromptKey) -> P)

  /** The prompt action a key stands for in Saving and Overwriting. */
  function PromptKeyOf(code: KeyCode): (r: Option<PromptKey>)
    ensures r.None? <==> code in {Up, Down, Enter} || code.OtherKey?
    ensures code.Char? ==> r == Some(PromptWrite(code.ch))
  {
    match code
    case Left => Some(PromptLeft)
    case Right => Some(PromptRight)
    case Backspace => Some(PromptBackspace)
    case Delete => Some(PromptDelete)
    case Char(ch) => Some(PromptWrite(ch))
    case _ => None
  }

  /** Lower-cases a Latin capital letter and leaves every other character alone. */
  function AsciiLower(c: char): char {
    if 'A' <= c <= 'Z' then (c as int + 32) as char else c
  }

  /**
   * The answer lower-cases to "y". Only 'y' and 'Y' lower-case to "y", and a
   * longer answer cannot lower-case to a single character.
   */
  function IsYes(answer: seq<char>): (yes: bool)
    ensures yes <==> |answer| == 1 && AsciiLower(answer[0]) == 'y'
  {
    answer == "y" || answer == "Y"
  }

  /**
   * The buffer operation a key without Control performs in Editing: arrows
   * move, Backspace and Delete remove, Enter breaks the line, a character is
   * typed, and any other key does nothing.
   */
  function EditByKey(d: Doc, code: KeyCode): (r: Doc)
    requires d.Valid()
    ensures r.Valid()
    ensures code.Char? ==> Lines.Join(r.lines) == Lines.Join(d.lines)[..d.Pos()] + [code.ch] + Lines.Join(d.lines)[d.Pos()..]
    ensures code == Enter ==> Lines.Join(r.lines) == Lines.Join(d.lines)[..d.Pos()] + ['\n'] + Lines.Join(d.lines)[d.Pos()..]
    ensures code.Backspace? && d.Pos() > 0 ==>
      Lines.Join(r.lines) == Lines.Join(d.lines)[..d.Pos() - 1] + Lines.Join(d.lines)[d.Pos()..]
    ensures code.Delete? && d.Pos() < |Lines.Join(d.lines)| ==>
      Lines.Join(r.lines) == Lines.Join(d.lines)[..d.Pos()] + Lines.Join(d.lines)[d.Pos() + 1..]
    ensures (code.Backspace? && d.Pos() == 0) || (code.Delete? && d.Pos() == |Lines.Join(d.lines)|) ==> r.lines == d.lines
    ensures code in {Up, Down, Left, Right} ==> r.lines == d.lines
    ensures code.OtherKey? ==> r == d
  {
    match code
    case Up => MoveUp(d)
    case Down => MoveDown(d)
    case Left => MoveLeft(d)
    case Right => MoveRight(d)
    case Backspace => Buffer.Backspace(d)
    case Delete => DeleteForward(d)
    case Enter => LineBreak(d)
    case Char(ch) => WriteChar(d, ch)
    case OtherKey(_) => d
  }

  /** The state changes the handlers can make. */
  predicate Allowed(from: State, to: State) {
    from == to ||
    (from in {Editing, Quitting} && to in {Quitting, Saving}) ||
    (from == Saving && to in {Editing, Overwriting}) ||
    (from == Overwriting && to in {Saving, Editing})
  }

  class Data<P> {
    var state: State
    var file: File
    var savePrompt: P
    var overwritePrompt: P
    var fs: FileSystem

    ghost predicate Valid()
      reads this, file
    {
      file.Valid()
    }

    /** An editor on a new, empty buffer, given its two prompts and the filesystem. */
    constructor (savePrompt: P, overwritePrompt: P, fs: FileSystem)
      ensures Valid() && fresh(file) && state == Editing
      ensures file.lines == [[]] && file.path == []
      ensures this.savePrompt == savePrompt && this.overwritePrompt == overwritePrompt && this.fs == fs
    {
      state := Editing;
      file := new File();
      this.savePrompt, this.overwritePrompt, this.fs := savePrompt, overwritePrompt, fs;
    }

    /**
     * What `handle_edit_key` does: Ctrl+c quits, Ctrl+s opens the save prompt
     * on the buffer's path, other Control keys do nothing, and any other key
     * performs its buffer operation. The filesystem, the overwrite prompt and
     * the buffer's path are left alone.
     */
    twostate predicate EditKeyEffect(key: KeyEvent, ops: PromptOps<P>)
      requires old(Valid())
      reads this, file
    {
      overwritePrompt == old(overwritePrompt) && fs == old(fs) && file.path == old(file.path) &&
      (IsCtrl(key, 'c') ==> state == Quitting && savePrompt == old(savePrompt)) &&
      (IsCtrl(key, 's') ==> state == Saving && savePrompt == ops.setAnswer(old(savePrompt), file.path)) &&
      (key.modifiers == CONTROL ==> file.State() == old(file.State())) &&
      (key.modifiers == CONTROL && !IsCtrl(key, 'c') && !IsCtrl(key, 's') ==>
        state == old(state) && savePrompt == old(savePrompt)) &&
      (key.modifiers != CONTROL ==>
        state == old(state) && savePrompt == old(savePrompt) &&
        file.State() == EditByKey(old(file.State()), key.code))
    }

    /** `handle_edit_key` (functionality.rs:9-38). */
    method HandleEditKey(key: KeyEvent, ops: PromptOps<P>)
      requires Valid()
      modifies this`state, this`savePrompt, file`lines, file`col, file`row
      ensures Valid() && EditKeyEffect(key, ops)
    {
      if key.modifiers == CONTROL {
        if key.code == Char('c') {
          state := Quitting;
        } else if key.code == Char('s') {
          state := Saving;
          savePrompt := ops.setAnswer(savePrompt, file.path);
        }
      } else {
        if key.code == Up {
          file.MoveCursorUp();
        } else if key.code == Down {
          file.MoveCursorDown();
        } else if key.code == Left {
          file.MoveCursorLeft();
        } else if key.code == Right {
          file.MoveCursorRight();
        } else if key.code == Backspace {
          file.RemoveCharacterBefore();
        } else if key.code == Delete {
          file.RemoveCharacterAfter();
        } else if key.code == Enter {
          file.BreakLine();
        } else if key.code.Char? {
          file.WriteCharacter(key.code.ch);
        }
      }
    }

    /**
     * What `handle_save_key` does: Ctrl+c goes back to Editing, prompt keys
     * edit the save prompt, and Enter saves without force, going to Editing
     * on `Ok(true)`, to Overwriting on `Ok(false)` and panicking on `Err`.
     */
    twostate predicate SaveKeyEffect(key: KeyEvent, ops: PromptOps<P>, io: IoOutcome, outcome: Outcome)
      reads this, file
    {
      overwritePrompt == old(overwritePrompt) &&
      (key.modifiers == CONTROL ==>
        outcome == Continue && fs == old(fs) && savePrompt == old(savePrompt) && file.path == old(file.path) &&
        state == (if key.code == Char('c') then Editing else old(state))) &&
      (key.modifiers != CONTROL && PromptKeyOf(key.code).Some? ==>
        outcome == Continue && fs == old(fs) && state == old(state) && file.path == old(file.path) &&
        savePrompt == ops.edit(old(savePrompt), PromptKeyOf(key.code).value)) &&
      (key.modifiers != CONTROL && (key.code in {Up, Down} || key.code.OtherKey?) ==>
        outcome == Continue && fs == old(fs) && state == old(state) && file.path == old(file.path) &&
        savePrompt == old(savePrompt)) &&
      (key.modifiers != CONTROL && key.code == Enter ==>
        var saved := Save(old(fs), ops.answer(savePrompt), Lines.Join(file.lines), false, io);
        savePrompt == old(savePrompt) && fs == saved.fs &&
        match saved.result
        case Ok(true) => outcome == Continue && state == Editing && file.path == ops.answer(savePrompt)
        case Ok(false) => outcome == Continue && state == Overwriting && file.path == old(file.path)
        case Err(_) => outcome == Panic("Error on saving file!") && state == old(state) && file.path == old(file.path))
    }

    /** `handle_save_key` (functionality.rs:40-71). */
    method HandleSaveKey(key: KeyEvent, ops: PromptOps<P>, io: IoOutcome) returns (outcome: Outcome)
      requires Valid()
      modifies this`state, this`savePrompt, this`fs, file`path
      ensures Valid() && SaveKeyEffect(key, ops, io, outcome)
    {
      outcome := Continue;
      if key.modifiers == CONTROL {
        if key.code == Char('c') {
          state := Editing;
        }
      } else {
        var action := PromptKeyOf(key.code);
        if action.Some? {
          savePrompt := ops.edit(savePrompt, action.value);
        } else if key.code == Enter {
          var text := file.ToString();
          var saved := Save(fs, ops.answer(savePrompt), text, false, io);
          fs := saved.fs;
          match saved.result
          case Ok(true) =>
            state := Editing;
            file.path := ops.answer(savePrompt);
          case Ok(false) =>
            state := Overwriting;
          case Err(_) =>
            outcome := Panic("Error on saving file!");
        }
      }
    }

    /**
     * What `handle_overwrite_key` does: Ctrl+c goes back to Saving, prompt
     * keys edit the overwrite prompt, and Enter with a yes answer saves with
     * force and goes to Editing, panicking on `Err`; any other answer goes
     * back to Saving.
     */
    twostate predicate OverwriteKeyEffect(key: KeyEvent, ops: PromptOps<P>, io: IoOutcome, outcome: Outcome)
      reads this, file
    {
      savePrompt == old(savePrompt) &&
      (key.modifiers == CONTROL ==>
        outcome == Continue && fs == old(fs) && overwritePrompt == old(overwritePrompt) && file.path == old(file.path) &&
        state == (if key.code == Char('c') then Saving else old(state))) &&
      (key.modifiers != CONTROL && PromptKeyOf(key.code).Some? ==>
        outcome == Continue && fs == old(fs) && state == old(state) && file.path == old(file.path) &&
        overwritePrompt == ops.edit(old(overwritePrompt), PromptKeyOf(key.code).value)) &&
      (key.modifiers != CONTROL && (key.code in {Up, Down} || key.code.OtherKey?) ==>
        outcome == Continue && fs == old(fs) && state == old(state) && file.path == old(file.path) &&
        overwritePrompt == old(overwritePrompt)) &&
      (key.modifiers != CONTROL && key.code == Enter && !IsYes(ops.answer(old(overwritePrompt))) ==>
        outcome == Continue && fs == old(fs) && state == Saving && file.path == old(file.path) &&
        overwritePrompt == old(overwritePrompt)) &&
      (key.modifiers != CONTROL && key.code == Enter && IsYes(ops.answer(old(overwritePrompt))) ==>
        var saved := Save(old(fs), ops.answer(savePrompt), Lines.Join(file.lines), true, io);
        overwritePrompt == old(overwritePrompt) && fs == saved.fs &&
        match saved.result
        case Ok(b) => b && outcome == Continue && state == Editing && file.path == ops.answer(savePrompt)
        case Err(_) => outcome == Panic("Error on overwriting file!") && state == old(state) && file.path == old(file.path))
    }

    /** `handle_overwrite_key` (functionality.rs:73-108). */
    method HandleOverwriteKey(key: KeyEvent, ops: PromptOps<P>, io: IoOutcome) returns (outcome: Outcome)
      requires Valid()
      modifies this`state, this`overwritePrompt, this`fs, file`path
      ensures Valid() && OverwriteKeyEffect(key, ops, io, outcome)
    {
      outcome := Continue;
      if key.modifiers == CONTROL {
        if key.code == Char('c') {
          state := Saving;
        }
      } else {
        var action := PromptKeyOf(key.code);
        if action.Some? {
          overwritePrompt := ops.edit(overwritePrompt, action.value);
        } else if key.code == Enter {
          if IsYes(ops.answer(overwritePrompt)) {
            var text := file.ToString();
            var saved := Save(fs, ops.answer(savePrompt), text, true, io);
            fs := saved.fs;
            if saved.result.Err? {
              outcome := Panic("Error on overwriting file!");
            } else {
              // `Save` with force never answers Ok(false): the panic at
              // functionality.rs:100 cannot happen.
              assert saved.result == Ok(true);
              state := Editing;
              file.path := ops.answer(savePrompt);
            }
          } else {
            state := Saving;
          }
        }
      }
    }

    /**
     * `handle_event` (functionality.rs:110-117): non-key events are ignored;
     * Overwriting and Saving have their own handlers, Editing and Quitting
     * share the editing one. The safety properties of the whole machine:
     * the filesystem changes only by a save from a prompt, an existing file is
     * only replaced after the overwrite prompt was answered yes, Overwriting is
     * entered only from a refused save, and the buffer's path changes only
     * when a save has just written the buffer's text there.
     */
    method HandleEvent(event: Event, ops: PromptOps<P>, io: IoOutcome) returns (outcome: Outcome)
      requires Valid()
      modifies this`state, this`savePrompt, this`overwritePrompt, this`fs, file`path, file`lines, file`col, file`row
      ensures Valid()
      ensures event.NonKey? ==>
        outcome == Continue && state == old(state) && fs == old(fs) &&
        savePrompt == old(savePrompt) && overwritePrompt == old(overwritePrompt) &&
        file.State() == old(file.State()) && file.path == old(file.path)
      ensures event.Key? && old(state) in {Editing, Quitting} ==> outcome == Continue && EditKeyEffect(event.key, ops)
      ensures event.Key? && old(state) == Saving ==> file.State() == old(file.State()) && SaveKeyEffect(event.key, ops, io, outcome)
      ensures event.Key? && old(state) == Overwriting ==>
        file.State() == old(file.State()) && OverwriteKeyEffect(event.key, ops, io, outcome)
      ensures Allowed(old(state), state)
      ensures fs != old(fs) ==>
        event.Key? && event.key.code == Enter && event.key.modifiers != CONTROL &&
        (old(state) == Saving || (old(state) == Overwriting && IsYes(ops.answer(old(overwritePrompt)))))
      ensures var path := ops.answer(old(savePrompt));
        fs.Keys <= old(fs.Keys) + {path} && forall p :: p in old(fs) && p != path ==> p in fs && fs[p] == old(fs)[p]
      ensures old(state) != Overwriting && ops.answer(old(savePrompt)) in old(fs) ==>
        ops.answer(old(savePrompt)) in fs && fs[ops.answer(old(savePrompt))] == old(fs)[ops.answer(old(savePrompt))]
      ensures state == Overwriting && old(state) != Overwriting ==>
        old(state) == Saving && ops.answer(old(savePrompt)) in old(fs) && fs == old(fs)
      ensures file.path != old(file.path) ==>
        outcome == Continue && state == Editing && file.path == ops.answer(old(savePrompt)) &&
        fs == old(fs)[file.path := Encode(Lines.Join(file.lines))]
    {
      outcome := Continue;
      if event.Key? {
        match state
        case Overwriting => outcome := HandleOverwriteKey(event.key, ops, io);
        case Saving => outcome := HandleSaveKey(event.key, ops, io);
        case _ => HandleEditKey(event.key, ops);
      }
    }
  }
}
