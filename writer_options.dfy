/**
 * The options of the day-rotating writer (writer/options.go) and its
 * constructor (filewriter/writer.go `New`): options are applied in order to a
 * zero struct, then an empty path and a count below one are replaced by the
 * defaults; the path is made absolute, split into folder and file name, and
 * the folder is created.
 */
module WriterOptions {
  import opened Common
  import opened Paths
  import opened Disk
  import RotatingFileWriter

  const DefaultMaxRolls: int := 7
  const DefaultFilePath: string := "./log/log"

  /** An Option: FilePath(n) or MaxRolls(n). */
  datatype Setting = FilePath(path: string) | MaxRolls(count: int)

  /** The two fields of the options as a value. */
  datatype Values = Values(filePath: string, maxRolls: int)

  /** An option's effect: it assigns its own field, whatever the value. */
  function Set(v: Values, s: Setting): (r: Values)
    ensures s.FilePath? ==> r.filePath == s.path && r.maxRolls == v.maxRolls
    ensures s.MaxRolls? ==> r.maxRolls == s.count && r.filePath == v.filePath
  {
    match s
    case FilePath(path) => v.(filePath := path)
    case MaxRolls(count) => v.(maxRolls := count)
  }

  /** The options applied in argument order. */
  function SetAll(v: Values, settings: seq<Setting>): (r: Values)
    ensures r.filePath == v.filePath || exists k | 0 <= k < |settings| :: settings[k] == FilePath(r.filePath)
    ensures r.maxRolls == v.maxRolls || exists k | 0 <= k < |settings| :: settings[k] == MaxRolls(r.maxRolls)
    decreases |settings|
  {
    if settings == [] then v else Set(SetAll(v, settings[..|settings| - 1]), settings[|settings| - 1])
  }

  /** The defaults patched in after the options. */
  function Patch(v: Values): (r: Values)
    ensures r.filePath != "" && r.maxRolls >= 1
    ensures v.filePath != "" ==> r.filePath == v.filePath
    ensures v.filePath == "" ==> r.filePath == DefaultFilePath
    ensures v.maxRolls >= 1 ==> r.maxRolls == v.maxRolls
    ensures v.maxRolls < 1 ==> r.maxRolls == DefaultMaxRolls
  {
    Values(if |v.filePath| == 0 then DefaultFilePath else v.filePath,
           if v.maxRolls < 1 then DefaultMaxRolls else v.maxRolls)
  }

  /** The last FilePath option decides the path, and with none the path is kept. */
  lemma {:induction false} LastFilePathWins(v: Values, settings: seq<Setting>)
    ensures (forall k | 0 <= k < |settings| :: !settings[k].FilePath?) ==> SetAll(v, settings).filePath == v.filePath
    ensures forall k | 0 <= k < |settings| && settings[k].FilePath? ::
              (forall j | k < j < |settings| :: !settings[j].FilePath?) ==> SetAll(v, settings).filePath == settings[k].path
    decreases |settings|
  {
    if settings != [] {
      var init := settings[..|settings| - 1];
      LastFilePathWins(v, init);
      forall k | 0 <= k < |settings| - 1
        ensures init[k] == settings[k]
      {
      }
    }
  }

  /** The last MaxRolls option decides the count, and with none the count is kept. */
  lemma {:induction false} LastMaxRollsWins(v: Values, settings: seq<Setting>)
    ensures (forall k | 0 <= k < |settings| :: !settings[k].MaxRolls?) ==> SetAll(v, settings).maxRolls == v.maxRolls
    ensures forall k | 0 <= k < |settings| && settings[k].MaxRolls? ::
              (forall j | k < j < |settings| :: !settings[j].MaxRolls?) ==> SetAll(v, settings).maxRolls == settings[k].count
    decreases |settings|
  {
    if settings != [] {
      var init := settings[..|settings| - 1];
      LastMaxRollsWins(v, init);
      forall k | 0 <= k < |settings| - 1
        ensures init[k] == settings[k]
      {
      }
    }
  }

  /** options: the mutable struct the option closures update. */
  class Options {
    var filePath: string
    var maxRolls: int

    function Current(): Values
      reads this
    {
      Values(filePath, maxRolls)
    }

    /** new(options): the zero struct. */
    constructor()
      ensures filePath == "" && maxRolls == 0
    {
      filePath := "";
      maxRolls := 0;
    }

    /** opt.apply(options) */
    method Apply(s: Setting)
      modifies this
      ensures Current() == Set(old(Current()), s)
    {
      match s {
        case FilePath(n) => filePath := n;
        case MaxRolls(n) => maxRolls := n;
      }
    }

    /** fileWriter: the absolute path split into folder and file name; the folder is created. */
    method FileWriter(abs: string -> Option<string>, mkdirFails: bool, fs: FileSystem)
      returns (w: Option<RotatingFileWriter.FileWriter>, err: Option<IoError>)
      requires Wf(fs.folder)
      ensures w.None? <==> err.Some?
      ensures err.Some? <==> abs(filePath).None? || mkdirFails
      ensures w.Some? ==>
                && fresh(w.value) && w.value.fs == fs
                && w.value.fullName == abs(filePath).value
                && w.value.folderName + w.value.fileName == w.value.fullName
                && (w.value.folderName, w.value.fileName) == Split(abs(filePath).value)
                && (forall k | 0 <= k < |w.value.fileName| :: w.value.fileName[k] != '/')
                && w.value.maxRolls == maxRolls
                && w.value.State() == RotatingFileWriter.Fields(RotatingFileWriter.ZeroTime, None, RotatingFileWriter.ZeroTime, RotatingFileWriter.ZeroTime)
    {
      var fullpath := abs(filePath);
      if fullpath.None? {
        return None, Some(Failed);
      }
      var parts := Split(fullpath.value);
      if mkdirFails {
        return None, Some(Failed);
      }
      var fw := new RotatingFileWriter.FileWriter(maxRolls, parts.0, parts.1, fs);
      w, err := Some(fw), None;
    }
  }

  /** configuration: apply the options in order to a zero struct, then patch in the defaults. */
  method Configuration(settings: seq<Setting>) returns (o: Options)
    ensures fresh(o)
    ensures o.Current() == Patch(SetAll(Values("", 0), settings))
  {
    o := new Options();
    var i := 0;
    while i < |settings|
      invariant 0 <= i <= |settings|
      invariant o.Current() == SetAll(Values("", 0), settings[..i])
    {
      assert settings[..i + 1][..i] == settings[..i];
      o.Apply(settings[i]);
      i := i + 1;
    }
    assert settings[..i] == settings;
    if |o.filePath| == 0 {
      o.filePath := DefaultFilePath;
    }
    if o.maxRolls < 1 {
      o.maxRolls := DefaultMaxRolls;
    }
  }

  /** New: build the writer from the configured options; on an error (reported on the
      console) there is no writer. */
  method New(settings: seq<Setting>, abs: string -> Option<string>, mkdirFails: bool, fs: FileSystem)
    returns (w: Option<RotatingFileWriter.FileWriter>)
    requires Wf(fs.folder)
    ensures var v := Patch(SetAll(Values("", 0), settings));
            w.Some? <==> abs(v.filePath).Some? && !mkdirFails
    ensures var v := Patch(SetAll(Values("", 0), settings));
            w.Some? ==> && fresh(w.value) && w.value.maxRolls == v.maxRolls >= 1
                        && w.value.fullName == abs(v.filePath).value
                        && (w.value.folderName, w.value.fileName) == Split(abs(v.filePath).value)
  {
    var o := Configuration(settings);
    var err;
    w, err := o.FileWriter(abs, mkdirFails, fs);
  }
}
