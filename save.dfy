/**
 * `save` (src/app/functionality/save.rs): write the buffer's text to the
 * path typed in the save prompt, unless a file is already there and the
 * caller did not ask to overwrite it.
 *
 * The filesystem is a map from paths to contents; a path exists when it is a
 * key. Whether `File::create` and `write_all` succeed is decided outside the
 * program, so it is a parameter: creation fails, writing fails after some
 * bytes, or both complete. `File::create` truncates, so a failed write leaves
 * the bytes written so far.
 */
module SaveFile {
  import opened Utf8

  type Path = seq<char>

  type FileSystem = map<Path, seq<byte>>

  /** How the operating system answers `File::create` and `write_all`. */
  datatype IoOutcome = CreateFails | WriteFails(written: nat) | Completes

  datatype IoError = CreateError | WriteError

  datatype Result<T> = Ok(value: T) | Err(error: IoError)

  datatype SaveResult = SaveResult(result: Result<bool>, fs: FileSystem)

  /** The write decision `file_exists && force_overwrite || !file_exists`: the path is free or overwriting is forced. */
  function ShouldWrite(fileExists: bool, force: bool): (write: bool)
    ensures write <==> !fileExists || force
  {
    (fileExists && force) || !fileExists
  }

  function Min(a: nat, b: nat): nat {
    if a <= b then a else b
  }

  /**
   * `save(data, force_overwrite)` with the prompt's answer `path` and the
   * buffer's `to_string()` as `text`: the result and the filesystem after it.
   */
  function Save(fs: FileSystem, path: Path, text: seq<char>, force: bool, io: IoOutcome): (r: SaveResult)
    // an existing file is never touched without force, and the answer is Ok(false)
    ensures path in fs && !force ==> r == SaveResult(Ok(false), fs)
    // Ok(false) means exactly "refused to overwrite": with force it never happens
    ensures r.result == Ok(false) <==> path in fs && !force
    // Ok(true) only after both the create and the write have succeeded, and
    // then the file holds exactly the UTF-8 bytes of the text
    ensures r.result == Ok(true) <==> ShouldWrite(path in fs, force) && io == Completes
    ensures r.result == Ok(true) ==> r.fs == fs[path := Encode(text)]
    // a failed create changes nothing; a failed write leaves a prefix of the bytes
    ensures r.result == Err(CreateError) ==> r.fs == fs
    ensures r.result == Err(WriteError) ==>
      path in r.fs && r.fs[path] <= Encode(text) && r.fs == fs[path := r.fs[path]]
    // nothing but `path` is ever touched
    ensures r.fs.Keys == fs.Keys + (if r.fs == fs then {} else {path})
    ensures forall p :: p in fs && p != path ==> r.fs[p] == fs[p]
  {
    var fileExists := path in fs;
    if ShouldWrite(fileExists, force) then
      match io
      case CreateFails => SaveResult(Err(CreateError), fs)
      case WriteFails(written) =>
        var bytes := Encode(text);
        SaveResult(Err(WriteError), fs[path := bytes[..Min(written, |bytes|)]])
      case Completes => SaveResult(Ok(true), fs[path := Encode(text)])
    else
      SaveResult(Ok(false), fs)
  }

  /** Saving twice with the same text leaves the same file as saving once. */
  lemma SaveAgainSameContents(fs: FileSystem, path: Path, text: seq<char>, force: bool)
    requires Save(fs, path, text, force, Completes).result == Ok(true)
    ensures Save(Save(fs, path, text, force, Completes).fs, path, text, true, Completes).fs
         == Save(fs, path, text, force, Completes).fs
  {
  }
}
