/**
 * The day-rotating log file writer (filewriter/writer.go).
 *
 * The writer appends to the active file `fileName` of its folder. The first
 * write at or after midnight following the file's creation rolls the file:
 * the handle is closed and the file is renamed to `fileName.YYYY-MM-DD`,
 * dated with its creation day. When no handle is open, a write opens the
 * active file, first archiving a leftover from an earlier day (dated with its
 * modification day). A separate sweep deletes archives older than `maxRolls`
 * days.
 *
 * The folder is keyed by entry name: `fullName` is `folderName + fileName`,
 * and an archive path `filepath.Join(folderName, name)` is the entry `name`.
 */
module RotatingFileWriter {
  import opened Common
  import opened Civil
  import opened Paths
  import opened Disk

  /** Which operating-system calls fail during one write; each is made at most once per write. */
  datatype Faults = Faults(closeFails: bool, renameFails: bool, statFails: bool, openFails: bool, writeFails: bool)

  const NoFaults: Faults := Faults(false, false, false, false, false)

  /** The zero time.Time (0001-01-01 00:00), the creation and expiry times before the first open. */
  const ZeroTime: Instant := Instant(DayNumber(Date(1, 1, 1)), 0)

  /** The fields the writer updates: currentTime, currentFileWriter (the inode its
      handle refers to, None for nil), currentFileCreateAt and currentFileExpireAt. */
  datatype Fields = Fields(currentTime: Instant, handle: Option<Ino>, createAt: Instant, expireAt: Instant)

  /** The outcome of an operation: the new fields and folder, the byte count and the error. */
  datatype Step = Step(fields: Fields, folder: Folder, n: nat, err: Option<IoError>)

  /** The name an archived active file gets: `fileName.YYYY-MM-DD` of `t`. */
  function ArchiveName(fileName: string, t: Instant): string
  {
    fileName + "." + TimeString(t)
  }

  /** The writer's invariant: an open handle is the active file's inode, which
      expires at the midnight after its creation. */
  predicate Inv(f: Fields, folder: Folder, fileName: string)
  {
    Wf(folder)
    && (f.handle.Some? ==>
          fileName in folder.links && folder.links[fileName] == f.handle.value
          && !folder.nodes[f.handle.value].isDir
          && f.expireAt == Midnight(f.createAt, 1))
  }

  /** A write must roll the file first. */
  predicate NeedsRoll(f: Fields, now: Instant)
  {
    f.handle.Some? && !Before(now, f.expireAt)
  }

  // ---------------------------------------------------------------------------
  // The operations on values; the class below is proved to behave as these say.

  /** Close: the handle becomes nil whatever the close reports. */
  function CloseSpec(f: Fields, closeFails: bool): (r: (Fields, Option<IoError>))
    ensures r.0.handle.None?
    ensures r.0.currentTime == f.currentTime && r.0.createAt == f.createAt && r.0.expireAt == f.expireAt
    ensures r.1.Some? <==> f.handle.Some? && closeFails
  {
    (f.(handle := None), if f.handle.Some? && closeFails then Some(Failed) else None)
  }

  /** rolling: close, then archive the active file under its creation day. */
  function RollSpec(f: Fields, folder: Folder, fileName: string, io: Faults): (r: Step)
    ensures r.fields == f.(handle := None) && r.n == 0
    ensures r.err.Some? ==> r.folder == folder
    ensures r.err.None? <==> && !(f.handle.Some? && io.closeFails) && !io.renameFails
                             && fileName in folder.links && !IsDirAt(folder, ArchiveName(fileName, f.createAt))
    ensures r.err.None? ==> && ArchiveName(fileName, f.createAt) in r.folder.links
                            && r.folder.links[ArchiveName(fileName, f.createAt)] == folder.links[fileName]
                            && fileName !in r.folder.links
  {
    ArchiveNameDiffers(fileName, f.createAt);
    var (f1, err) := CloseSpec(f, io.closeFails);
    if err.Some? then Step(f1, folder, 0, err)
    else
      var (folder1, err1) := Rename(folder, fileName, ArchiveName(fileName, f.createAt), io.renameFails);
      Step(f1, folder1, 0, err1)
  }

  /** create: open the active file for appending; it expires at the next midnight. */
  function CreateSpec(f: Fields, folder: Folder, fileName: string, io: Faults): (r: Step)
    requires Wf(folder)
    ensures Wf(r.folder) && r.n == 0
    ensures r.err.None? ==> r.fields.handle.Some? && Inv(r.fields, r.folder, fileName)
  {
    var (folder1, h) := OpenAppend(folder, fileName, f.currentTime, io.openFails);
    if h.Err? then Step(f, folder1, 0, Some(h.error))
    else Step(f.(handle := Some(h.value), createAt := f.currentTime, expireAt := Midnight(f.currentTime, 1)), folder1, 0, None)
  }

  /** open: archive an active file left from another day (under its modification day), then create. */
  function OpenSpec(f: Fields, folder: Folder, fileName: string, io: Faults): (r: Step)
    requires Wf(folder)
    ensures Wf(r.folder) && r.n == 0
    ensures r.err.None? ==> r.fields.handle.Some? && Inv(r.fields, r.folder, fileName)
  {
    var info := Stat(folder, fileName, io.statFails);
    if info.Err? then
      if info.error == NotExist then CreateSpec(f, folder, fileName, io) else Step(f, folder, 0, Some(info.error))
    else
      var node := info.value;
      if Midnight(f.currentTime, 0) != Midnight(node.modTime, 0) then
        var (folder1, err) := Rename(folder, fileName, ArchiveName(fileName, node.modTime), io.renameFails);
        if err.Some? then Step(f, folder1, 0, err) else CreateSpec(f, folder1, fileName, io)
      else CreateSpec(f, folder, fileName, io)
  }

  /** write's first phase: roll the open file when its expiry time has come. */
  function RollIfDue(f: Fields, folder: Folder, fileName: string, now: Instant, io: Faults): (r: Step)
    requires Inv(f, folder, fileName)
    ensures Wf(r.folder) && r.n == 0 && r.fields.currentTime == f.currentTime
    ensures r.err.None? ==> Inv(r.fields, r.folder, fileName)
    ensures r.err.Some? ==> r.fields.handle.None?
  {
    if NeedsRoll(f, now) then RollSpec(f, folder, fileName, io) else Step(f, folder, 0, None)
  }

  /** write's second phase: open the active file when no handle is open. */
  function OpenIfClosed(f: Fields, folder: Folder, fileName: string, io: Faults): (r: Step)
    requires Inv(f, folder, fileName)
    ensures Wf(r.folder) && r.n == 0 && r.fields.currentTime == f.currentTime
    ensures r.err.None? ==> r.fields.handle.Some? && Inv(r.fields, r.folder, fileName)
    ensures r.err.Some? ==> r.fields.handle.None?
  {
    if f.handle.None? then OpenSpec(f, folder, fileName, io) else Step(f, folder, 0, None)
  }

  /** write: stamp the time, roll if due, open if closed, then append. */
  function WriteSpec(f: Fields, folder: Folder, fileName: string, p: seq<Byte>, now: Instant, io: Faults): (r: Step)
    requires Inv(f, folder, fileName)
    ensures Inv(r.fields, r.folder, fileName)
    ensures r.fields.currentTime == now
    ensures r.err.Some? ==> r.n == 0
    ensures r.err.None? ==> r.n == |p| && r.fields.handle.Some?
    ensures r.err.None? ==> var h := r.fields.handle.value;
              && fileName in r.folder.links && r.folder.links[fileName] == h && h in r.folder.nodes
              && |p| <= |r.folder.nodes[h].data| && r.folder.nodes[h].data[|r.folder.nodes[h].data| - |p|..] == p
  {
    var s1 := RollIfDue(f.(currentTime := now), folder, fileName, now, io);
    if s1.err.Some? then s1
    else
      var s2 := OpenIfClosed(s1.fields, s1.folder, fileName, io);
      if s2.err.Some? then s2
      else
        var (folder3, err3) := Append(s2.folder, s2.fields.handle.value, p, now, io.writeFails);
        Step(s2.fields, folder3, if err3.Some? then 0 else |p|, err3)
  }

  /** tidy's test for one entry: a non-directory named `fileName` plus more, whose
      extension is a date strictly before `oldest`. */
  predicate ExpiredArchive(name: string, node: Node, fileName: string, oldest: Instant)
  {
    && !node.isDir && |name| != |fileName| && HasPrefix(name, fileName)
    && |Ext(name)| != 0
    && ParseSuffix(Ext(name)[1..]).Some?
    && Before(ParseSuffix(Ext(name)[1..]).value, oldest)
  }

  /** The names tidy deletes: expired archives, with `oldest` = timeMidnight(now, -maxRolls). */
  function TidyVictims(folder: Folder, fileName: string, maxRolls: int, now: Instant): (victims: set<string>)
    ensures fileName !in victims
    ensures forall name | name in victims :: name in folder.links && HasPrefix(name, fileName) && |name| > |fileName|
  {
    set name | name in folder.links && folder.links[name] in folder.nodes
                 && ExpiredArchive(name, folder.nodes[folder.links[name]], fileName, Midnight(now, -maxRolls))
  }

  // ---------------------------------------------------------------------------
  // Properties of the operations

  /** Closing twice is closing once; the creation and expiry times are kept. */
  lemma CloseIdempotent(f: Fields, a: bool, b: bool)
    ensures CloseSpec(CloseSpec(f, a).0, b) == (CloseSpec(f, a).0, None)
    ensures CloseSpec(f, a).0.handle.None?
    ensures CloseSpec(f, a).0.createAt == f.createAt && CloseSpec(f, a).0.expireAt == f.expireAt
  {
  }

  /** A successful create stamps the file with the current time and the next midnight,
      which lies after it. */
  lemma CreateSetsExpiry(f: Fields, folder: Folder, fileName: string, io: Faults)
    requires Wf(folder)
    ensures var r := CreateSpec(f, folder, fileName, io);
            r.err.None? ==> r.fields.createAt == f.currentTime && r.fields.expireAt == Midnight(f.currentTime, 1)
                            && Before(r.fields.createAt, r.fields.expireAt)
  {
  }

  /** An archive name is never the active name. */
  lemma ArchiveNameDiffers(fileName: string, t: Instant)
    ensures ArchiveName(fileName, t) != fileName
    ensures HasPrefix(ArchiveName(fileName, t), fileName)
  {
    assert ArchiveName(fileName, t)[..|fileName|] == fileName;
  }

  /** open without an active file goes straight to create: a fresh empty file. */
  lemma OpenMissingCreates(f: Fields, folder: Folder, fileName: string)
    requires Wf(folder) && fileName !in folder.links
    ensures var r := OpenSpec(f, folder, fileName, NoFaults);
            && r.err.None? && r.fields.handle == Some(folder.nextIno)
            && r.folder.links == folder.links[fileName := folder.nextIno]
            && r.folder.nodes[folder.nextIno].data == []
            && r.fields.createAt == f.currentTime && r.fields.expireAt == Midnight(f.currentTime, 1)
  {
  }

  /** open with an active file from an earlier (or later) day archives it under its
      modification day, then starts a fresh file. */
  lemma OpenStaleArchives(f: Fields, folder: Folder, fileName: string)
    requires Wf(folder) && fileName in folder.links && !IsDirAt(folder, fileName)
    requires Midnight(f.currentTime, 0) != Midnight(folder.nodes[folder.links[fileName]].modTime, 0)
    requires !IsDirAt(folder, ArchiveName(fileName, folder.nodes[folder.links[fileName]].modTime))
    ensures var old_ino := folder.links[fileName];
            var archive := ArchiveName(fileName, folder.nodes[old_ino].modTime);
            var r := OpenSpec(f, folder, fileName, NoFaults);
            && r.err.None?
            && archive in r.folder.links && r.folder.links[archive] == old_ino
            && r.folder.nodes[old_ino] == folder.nodes[old_ino]
            && r.fields.handle == Some(folder.nextIno) && r.folder.nodes[folder.nextIno].data == []
  {
    var old_ino := folder.links[fileName];
    ArchiveNameDiffers(fileName, folder.nodes[old_ino].modTime);
  }

  /** open with an active file of today's date reopens that same file for appending. */
  lemma OpenSameDayReuses(f: Fields, folder: Folder, fileName: string)
    requires Wf(folder) && fileName in folder.links && !IsDirAt(folder, fileName)
    requires Midnight(f.currentTime, 0) == Midnight(folder.nodes[folder.links[fileName]].modTime, 0)
    ensures var r := OpenSpec(f, folder, fileName, NoFaults);
            r.err.None? && r.fields.handle == Some(folder.links[fileName]) && r.folder == folder
  {
  }

  /** The first write into a folder without an active file creates it, and it holds exactly
      the bytes written and expires at the next midnight. */
  lemma FirstWriteStartsFile(f: Fields, folder: Folder, fileName: string, p: seq<Byte>, now: Instant)
    requires Inv(f, folder, fileName) && f.handle.None? && fileName !in folder.links
    ensures var r := WriteSpec(f, folder, fileName, p, now, NoFaults);
            && r.err.None? && r.n == |p|
            && r.fields.handle == Some(folder.nextIno)
            && r.folder.links == folder.links[fileName := folder.nextIno]
            && r.folder.nodes[folder.nextIno].data == p
            && r.fields.createAt == now && r.fields.expireAt == Midnight(now, 1)
  {
    OpenMissingCreates(f.(currentTime := now), folder, fileName);
  }

  /** Before the expiry time, a write only appends to the open file: no other file,
      no name, and no field but the current time changes. */
  lemma SameDayWriteOnlyAppends(f: Fields, folder: Folder, fileName: string, p: seq<Byte>, now: Instant, io: Faults)
    requires Inv(f, folder, fileName) && f.handle.Some? && Before(now, f.expireAt) && !io.writeFails
    ensures var r := WriteSpec(f, folder, fileName, p, now, io);
            && r.err.None? && r.n == |p|
            && r.fields == f.(currentTime := now)
            && r.folder.links == folder.links
            && r.folder.nodes[f.handle.value].data == folder.nodes[f.handle.value].data + p
            && (forall i | i in folder.nodes && i != f.handle.value :: r.folder.nodes[i] == folder.nodes[i])
  {
  }

  /** At or after the expiry time, a write archives the open file under its creation
      day, untouched, and writes the bytes into a fresh active file. */
  lemma RolloverArchivesAndStartsFresh(f: Fields, folder: Folder, fileName: string, p: seq<Byte>, now: Instant)
    requires Inv(f, folder, fileName) && f.handle.Some? && !Before(now, f.expireAt)
    requires !IsDirAt(folder, ArchiveName(fileName, f.createAt))
    ensures var h := f.handle.value;
            var archive := ArchiveName(fileName, f.createAt);
            var r := WriteSpec(f, folder, fileName, p, now, NoFaults);
            && r.err.None? && r.n == |p|
            && archive in r.folder.links && r.folder.links[archive] == h
            && r.folder.nodes[h] == folder.nodes[h]
            && r.fields.handle == Some(folder.nextIno) && r.folder.links[fileName] == folder.nextIno
            && r.folder.nodes[folder.nextIno].data == p
            && r.fields.createAt == now && r.fields.expireAt == Midnight(now, 1)
  {
    ArchiveNameDiffers(fileName, f.createAt);
    var f0 := f.(currentTime := now);
    var s1 := RollSpec(f0, folder, fileName, NoFaults);
    assert fileName !in s1.folder.links;
    assert s1.fields.handle.None?;
  }

  /** A roll whose close succeeds but whose rename fails leaves the handle closed and
      the folder as it was, so the next write goes through open again. */
  lemma FailedRenameLeavesClosed(f: Fields, folder: Folder, fileName: string, p: seq<Byte>, now: Instant, io: Faults)
    requires Inv(f, folder, fileName) && f.handle.Some? && !Before(now, f.expireAt)
    requires !io.closeFails && io.renameFails
    ensures var r := WriteSpec(f, folder, fileName, p, now, io);
            && r.err == Some(Failed) && r.n == 0 && r.folder == folder
            && r.fields == f.(currentTime := now, handle := None)
  {
  }

  /** All bytes of a sequence of writes, in order. */
  function Flatten(ps: seq<seq<Byte>>): seq<Byte>
  {
    if ps == [] then [] else Flatten(ps[..|ps| - 1]) + ps[|ps| - 1]
  }

  /** A sequence of writes at the given times. */
  function WriteAll(f: Fields, folder: Folder, fileName: string, ps: seq<seq<Byte>>, nows: seq<Instant>, io: Faults): (r: Step)
    requires Inv(f, folder, fileName) && |ps| == |nows|
    ensures Inv(r.fields, r.folder, fileName)
    decreases |ps|
  {
    if ps == [] then Step(f, folder, 0, None)
    else
      var r := WriteAll(f, folder, fileName, ps[..|ps| - 1], nows[..|nows| - 1], io);
      WriteSpec(r.fields, r.folder, fileName, ps[|ps| - 1], nows[|nows| - 1], io)
  }

  /** Writes made before the expiry time all land, in order, in the one open file. */
  lemma {:induction false} SameDayWritesAccumulate(f: Fields, folder: Folder, fileName: string, ps: seq<seq<Byte>>, nows: seq<Instant>, io: Faults)
    requires Inv(f, folder, fileName) && f.handle.Some? && |ps| == |nows| && !io.writeFails
    requires forall k | 0 <= k < |nows| :: Before(nows[k], f.expireAt)
    ensures var r := WriteAll(f, folder, fileName, ps, nows, io);
            && r.fields.handle == f.handle && r.fields.createAt == f.createAt && r.fields.expireAt == f.expireAt
            && r.folder.links == folder.links
            && r.folder.nodes[f.handle.value].data == folder.nodes[f.handle.value].data + Flatten(ps)
  {
    if ps != [] {
      var ps', nows' := ps[..|ps| - 1], nows[..|nows| - 1];
      assert forall k | 0 <= k < |nows'| :: nows'[k] == nows[k];
      SameDayWritesAccumulate(f, folder, fileName, ps', nows', io);
      var r := WriteAll(f, folder, fileName, ps', nows', io);
      var p, now := ps[|ps| - 1], nows[|nows| - 1];
      AccumulateStep(f, folder, fileName, r, Flatten(ps'), p, now, io);
      assert ps[..|ps| - 1] == ps';
    }
  }

  /** One more same-day write extends what the open file has gathered since `folder`. */
  lemma AccumulateStep(f: Fields, folder: Folder, fileName: string, r: Step, acc: seq<Byte>, p: seq<Byte>, now: Instant, io: Faults)
    requires Inv(r.fields, r.folder, fileName) && f.handle.Some? && !io.writeFails && Before(now, f.expireAt)
    requires r.fields.handle == f.handle && r.fields.createAt == f.createAt && r.fields.expireAt == f.expireAt
    requires f.handle.value in folder.nodes && r.folder.links == folder.links
    requires r.folder.nodes[f.handle.value].data == folder.nodes[f.handle.value].data + acc
    ensures var r' := WriteSpec(r.fields, r.folder, fileName, p, now, io);
            && r'.fields.handle == f.handle && r'.fields.createAt == f.createAt && r'.fields.expireAt == f.expireAt
            && r'.folder.links == folder.links
            && r'.folder.nodes[f.handle.value].data == folder.nodes[f.handle.value].data + (acc + p)
  {
    SameDayWriteOnlyAppends(r.fields, r.folder, fileName, p, now, io);
  }

  /** The date text of a year 0 through 9999 contains no '.' and no '/'. */
  lemma TimeStringPlain(t: Instant)
    requires 0 <= DateOf(t.day).year <= 9999
    ensures |TimeString(t)| == 10
    ensures forall k :: 0 <= k < |TimeString(t)| ==> TimeString(t)[k] != '.' && TimeString(t)[k] != '/'
  {
    FormatThenParse(DateOf(t.day));
  }

  /** An archive written by a roll of day t is swept exactly when t's day lies more
      than maxRolls days before today. */
  lemma {:induction false} ArchiveExpiresAfterMaxRolls(fileName: string, t: Instant, node: Node, maxRolls: int, now: Instant)
    requires !node.isDir && 0 <= DateOf(t.day).year <= 9999
    ensures ExpiredArchive(ArchiveName(fileName, t), node, fileName, Midnight(now, -maxRolls))
            <==> t.day < now.day - maxRolls
  {
    var name := ArchiveName(fileName, t);
    ArchiveNameDiffers(fileName, t);
    TimeStringPlain(t);
    ExtOfDotted(fileName, TimeString(t));
    assert Ext(name)[1..] == TimeString(t);
    TimeStringParses(t);
  }

  /** With seven rolls kept and today 2024-03-10, the archive of 2024-03-02 is swept and
      the one of 2024-03-03 is kept. */
  lemma TidyExample(node: Node, nanos: TimeOfDay)
    requires !node.isDir
    ensures var today := Instant(DayNumber(Date(2024, 3, 10)), nanos);
            && ExpiredArchive("log" + "." + "2024-03-02", node, "log", Midnight(today, -7))
            && !ExpiredArchive("log" + "." + "2024-03-03", node, "log", Midnight(today, -7))
  {
    ExtOfDotted("log", "2024-03-02");
    ExtOfDotted("log", "2024-03-03");
    assert ParseDate("2024-03-02") == Some(Date(2024, 3, 2));
    assert ParseDate("2024-03-03") == Some(Date(2024, 3, 3));
  }

  // ---------------------------------------------------------------------------
  // The writer

  /** The names among `names` that tidy removes when no removal of `removeFails` fails. */
  ghost function Swept(folder: Folder, names: seq<string>, fileName: string, oldest: Instant, removeFails: set<string>): set<string>
  {
    set name | name in names && name in folder.links && folder.links[name] in folder.nodes
                 && ExpiredArchive(name, folder.nodes[folder.links[name]], fileName, oldest)
                 && name !in removeFails
  }

  lemma SweptStep(folder: Folder, names: seq<string>, name: string, fileName: string, oldest: Instant, removeFails: set<string>)
    ensures Swept(folder, names + [name], fileName, oldest, removeFails)
         == Swept(folder, names, fileName, oldest, removeFails)
            + (if name in folder.links && folder.links[name] in folder.nodes
                  && ExpiredArchive(name, folder.nodes[folder.links[name]], fileName, oldest)
                  && name !in removeFails
               then {name} else {})
  {
  }

  /** Removing one more name from a folder that has lost the names `swept` loses that name too,
      unless the removal fails. */
  lemma RemoveSwept(snapshot: Folder, swept: set<string>, name: string, cur: Folder, fails: bool)
    requires cur == snapshot.(links := snapshot.links - swept)
    ensures Remove(cur, name, fails).0 == snapshot.(links := snapshot.links - (swept + if fails then {} else {name}))
  {
    if !fails {
      assert snapshot.links - swept - {name} == snapshot.links - (swept + {name});
      if name !in cur.links {
        assert snapshot.links - swept == snapshot.links - (swept + {name});
      }
    }
  }

  class FileWriter {
    const maxRolls: int
    const folderName: string
    const fileName: string
    const fullName: string
    const fs: FileSystem

    var currentTime: Instant
    var currentFile: Option<Ino>
    var createAt: Instant
    var expireAt: Instant

    function State(): Fields
      reads this
    {
      Fields(currentTime, currentFile, createAt, expireAt)
    }

    predicate Valid()
      reads this, fs
    {
      Inv(State(), fs.folder, fileName)
    }

    /** The struct literal built by the options: no file open yet. */
    constructor(maxRolls: int, folderName: string, fileName: string, fs: FileSystem)
      requires Wf(fs.folder)
      ensures this.maxRolls == maxRolls && this.folderName == folderName && this.fileName == fileName
      ensures fullName == folderName + fileName && this.fs == fs
      ensures State() == Fields(ZeroTime, None, ZeroTime, ZeroTime)
      ensures Valid()
    {
      this.maxRolls := maxRolls;
      this.folderName := folderName;
      this.fileName := fileName;
      this.fullName := folderName + fileName;
      this.fs := fs;
      currentTime := ZeroTime;
      currentFile := None;
      createAt := ZeroTime;
      expireAt := ZeroTime;
    }

    /** Write: the locked entry point; a failure is reported on the console, never to the caller. */
    method Write(p: seq<Byte>, now: Instant, io: Faults) returns (n: nat, err: Option<IoError>)
      requires Valid()
      modifies this, fs
      ensures Valid()
      ensures err.None?
      ensures var r := WriteSpec(old(State()), old(fs.folder), fileName, p, now, io);
              State() == r.fields && fs.folder == r.folder && n == r.n
    {
      var e;
      n, e := DoWrite(p, now, io);
      err := None;
    }

    /** write: stamp the time, roll when due, open when closed, append. */
    method DoWrite(p: seq<Byte>, now: Instant, io: Faults) returns (n: nat, err: Option<IoError>)
      requires Valid()
      modifies this, fs
      ensures Valid()
      ensures Step(State(), fs.folder, n, err) == WriteSpec(old(State()), old(fs.folder), fileName, p, now, io)
    {
      currentTime := now;
      ghost var f0, folder0 := State(), fs.folder;
      ghost var s1 := RollIfDue(f0, folder0, fileName, now, io);
      assert f0 == old(State()).(currentTime := now);
      err := None;
      if currentFile.Some? && !Before(currentTime, expireAt) {
        err := Rolling(io);
        if err.Some? {
          assert Step(State(), fs.folder, 0, err) == s1;
          return 0, err;
        }
      }
      assert Step(State(), fs.folder, 0, err) == s1;
      ghost var s2 := OpenIfClosed(s1.fields, s1.folder, fileName, io);
      if currentFile.None? {
        err := Open(io);
        if err.Some? {
          assert Step(State(), fs.folder, 0, err) == s2;
          return 0, err;
        }
      }
      assert Step(State(), fs.folder, 0, err) == s2;
      n, err := WriteCurrent(p, now, io.writeFails);
    }

    /** currentFileWriter.Write: append the bytes to the open file. */
    method WriteCurrent(p: seq<Byte>, now: Instant, writeFails: bool) returns (n: nat, err: Option<IoError>)
      requires currentFile.Some?
      modifies fs
      ensures (fs.folder, err) == Append(old(fs.folder), currentFile.value, p, now, writeFails)
      ensures n == if err.Some? then 0 else |p|
    {
      var written := Append(fs.folder, currentFile.value, p, now, writeFails);
      fs.folder := written.0;
      err := written.1;
      n := if err.Some? then 0 else |p|;
    }

    /** Close: the handle is dropped even when closing it fails. */
    method Close(closeFails: bool) returns (err: Option<IoError>)
      modifies this
      ensures (State(), err) == CloseSpec(old(State()), closeFails)
    {
      err := None;
      if currentFile.Some? {
        if closeFails {
          err := Some(Failed);
        }
        currentFile := None;
      }
    }

    /** rolling: close, then archive the active file under its creation day. */
    method Rolling(io: Faults) returns (err: Option<IoError>)
      modifies this, fs
      ensures Step(State(), fs.folder, 0, err) == RollSpec(old(State()), old(fs.folder), fileName, io)
    {
      err := Close(io.closeFails);
      if err.Some? {
        return;
      }
      err := RenameTo(createAt, io.renameFails);
    }

    /** rename: move the active file to its archive name for the given day. */
    method RenameTo(timeSuffix: Instant, fails: bool) returns (err: Option<IoError>)
      modifies fs
      ensures (fs.folder, err) == Rename(old(fs.folder), fileName, ArchiveName(fileName, timeSuffix), fails)
    {
      var renamed := Rename(fs.folder, fileName, ArchiveName(fileName, timeSuffix), fails);
      fs.folder := renamed.0;
      err := renamed.1;
    }

    /** open: archive an active file of another day, then create. */
    method Open(io: Faults) returns (err: Option<IoError>)
      requires Wf(fs.folder)
      modifies this, fs
      ensures Step(State(), fs.folder, 0, err) == OpenSpec(old(State()), old(fs.folder), fileName, io)
    {
      var info := Stat(fs.folder, fileName, io.statFails);
      if info.Err? {
        if info.error == NotExist {
          err := Create(io);
          return;
        }
        return Some(info.error);
      }
      if Midnight(currentTime, 0) != Midnight(info.value.modTime, 0) {
        err := RenameTo(info.value.modTime, io.renameFails);
        if err.Some? {
          return;
        }
      }
      err := Create(io);
    }

    /** create: open the active file for appending and set its expiry to the next midnight. */
    method Create(io: Faults) returns (err: Option<IoError>)
      requires Wf(fs.folder)
      modifies this, fs
      ensures Step(State(), fs.folder, 0, err) == CreateSpec(old(State()), old(fs.folder), fileName, io)
    {
      var file := OpenAppend(fs.folder, fileName, currentTime, io.openFails);
      fs.folder := file.0;
      if file.1.Err? {
        return Some(file.1.error);
      }
      currentFile := Some(file.1.value);
      createAt := currentTime;
      expireAt := Midnight(currentTime, 1);
      err := None;
    }

    /** The body of tidy's loop: remove one entry when it is an expired archive. */
    method TidyEntry(name: string, node: Node, oldest: Instant, removeFails: set<string>,
                     ghost snapshot: Folder, ghost swept: set<string>)
      requires fs.folder == snapshot.(links := snapshot.links - swept)
      modifies fs
      ensures fs.folder == snapshot.(links := snapshot.links
                 - (swept + if ExpiredArchive(name, node, fileName, oldest) && name !in removeFails then {name} else {}))
    {
      if !node.isDir && |name| != |fileName| && HasPrefix(name, fileName) {
        var suffix := Ext(name);
        if |suffix| != 0 {
          suffix := suffix[1..];
          var t := ParseSuffix(suffix);
          if t.Some? && Before(t.value, oldest) {
            RemoveSwept(snapshot, swept, name, fs.folder, name in removeFails);
            var removed := Remove(fs.folder, name, name in removeFails);
            fs.folder := removed.0;
            return;
          }
        }
      }
      assert swept + {} == swept;
    }

    /** tidy: remove every expired archive of the listing; a failed removal is ignored. */
    method Tidy(entries: seq<string>, readDirFails: bool, removeFails: set<string>) returns (err: Option<IoError>)
      requires forall k | 0 <= k < |entries| :: entries[k] in fs.folder.links
      requires forall name | name in fs.folder.links :: name in entries
      requires Wf(fs.folder)
      modifies fs
      ensures readDirFails ==> err == Some(Failed) && fs.folder == old(fs.folder)
      ensures !readDirFails ==>
                && err.None?
                && fs.folder == old(fs.folder).(links := old(fs.folder).links
                                   - (TidyVictims(old(fs.folder), fileName, maxRolls, currentTime) - removeFails))
    {
      if readDirFails {
        return Some(Failed);
      }
      err := None;
      ghost var snapshot := fs.folder;
      var listing := fs.folder;
      if |entries| == 0 {
        assert TidyVictims(snapshot, fileName, maxRolls, currentTime) == {};
        assert snapshot.links - {} == snapshot.links;
        return;
      }
      var oldest := Midnight(currentTime, -maxRolls);
      var i := 0;
      while i < |entries|
        invariant 0 <= i <= |entries|
        invariant fs.folder == snapshot.(links := snapshot.links - Swept(snapshot, entries[..i], fileName, oldest, removeFails))
      {
        var name := entries[i];
        TidyEntry(name, listing.nodes[listing.links[name]], oldest, removeFails,
                  snapshot, Swept(snapshot, entries[..i], fileName, oldest, removeFails));
        assert entries[..i + 1] == entries[..i] + [name];
        SweptStep(snapshot, entries[..i], name, fileName, oldest, removeFails);
        i := i + 1;
      }
      assert entries[..i] == entries;
      assert Swept(snapshot, entries, fileName, oldest, removeFails)
          == TidyVictims(snapshot, fileName, maxRolls, currentTime) - removeFails;
    }
  }
}
