/**
 * The older revision of the file writer (filewriter/file_writer.go). At start-up
 * it sorts the files of its folder into kept, removed and recorded ones, pushes
 * the recorded archives onto a stack oldest first, and opens the active file.
 * Opening a new active file archives the previous one under `prefix + date`.
 *
 * The helpers `fileStack`, `fileDate` and `newFileDate*` are not part of this
 * model: a file date is an opaque record of a creation time, an expiry time and
 * a text, the three constructors are parameters, and a push appends.
 */
module StackFileWriter {
  import opened Common
  import opened Civil
  import opened Paths
  import opened Disk

  const DefaultMaxRolls: int := 7
  const DefaultFilePath: string := "./log/log.log"

  /** fileDate: when a file was created, when it expires, and its date text. */
  datatype FileDate = FileDate(createAt: Instant, expireAt: Instant, text: string)

  /** fileInfo: a file date with the file's entry name and path. */
  datatype FileInfo = FileInfo(date: FileDate, fileName: string, filePath: string)

  /** newFileDate(TTL), newFileDateWithTime(·, TTL) and newFileDateWithStr(·, TTL). */
  datatype Clock = Clock(current: FileDate, ofTime: Instant -> FileDate, ofText: string -> Option<FileDate>)

  /** Options: how many days to keep and where the active file lives. */
  datatype Options = Options(ttl: int, filePath: string)

  /** An Option closure: TTL(ttl) or FilePath(path). */
  datatype Setting = TTL(days: int) | FilePath(path: string)

  function DefaultOptions(): Options
  {
    Options(DefaultMaxRolls, DefaultFilePath)
  }

  /** Both options assign their field whatever the value. */
  function Apply(o: Options, s: Setting): (r: Options)
    ensures s.TTL? ==> r == o.(ttl := s.days)
    ensures s.FilePath? ==> r == o.(filePath := s.path)
  {
    match s
    case TTL(days) => o.(ttl := days)
    case FilePath(path) => o.(filePath := path)
  }

  function ApplyAll(o: Options, settings: seq<Setting>): (r: Options)
    ensures r.ttl == o.ttl || exists k | 0 <= k < |settings| :: settings[k] == TTL(r.ttl)
    ensures r.filePath == o.filePath || exists k | 0 <= k < |settings| :: settings[k] == FilePath(r.filePath)
    decreases |settings|
  {
    if settings == [] then o else ApplyAll(Apply(o, settings[0]), settings[1..])
  }

  /** The last TTL option decides the TTL, and with none the TTL is kept. */
  lemma {:induction false} LastTTLWins(o: Options, settings: seq<Setting>, k: int)
    requires 0 <= k < |settings| && settings[k].TTL?
    requires forall j | k < j < |settings| :: !settings[j].TTL?
    ensures ApplyAll(o, settings).ttl == settings[k].days
    decreases |settings|
  {
    if k == 0 {
      NoTTLKeeps(Apply(o, settings[0]), settings[1..]);
    } else {
      LastTTLWins(Apply(o, settings[0]), settings[1..], k - 1);
    }
  }

  /** Without TTL options the TTL is unchanged. */
  lemma {:induction false} NoTTLKeeps(o: Options, settings: seq<Setting>)
    requires forall j | 0 <= j < |settings| :: !settings[j].TTL?
    ensures ApplyAll(o, settings).ttl == o.ttl
    decreases |settings|
  {
    if settings != [] {
      NoTTLKeeps(Apply(o, settings[0]), settings[1..]);
    }
  }

  // ---------------------------------------------------------------------------
  // Strings

  /** The in-order concatenation of the parts. */
  function Concat(parts: seq<string>): (s: string)
    ensures |s| == SumLengths(parts)
  {
    if parts == [] then "" else Concat(parts[..|parts| - 1]) + parts[|parts| - 1]
  }

  function SumLengths(parts: seq<string>): nat
  {
    if parts == [] then 0 else SumLengths(parts[..|parts| - 1]) + |parts[|parts| - 1]|
  }

  /** Each part sits in the concatenation at the offset of the parts before it. */
  lemma {:induction false} ConcatPart(parts: seq<string>, k: int)
    requires 0 <= k < |parts|
    ensures SumLengths(parts[..k]) + |parts[k]| <= |Concat(parts)|
    ensures Concat(parts)[SumLengths(parts[..k])..SumLengths(parts[..k]) + |parts[k]|] == parts[k]
  {
    var init := parts[..|parts| - 1];
    if k == |parts| - 1 {
      assert parts[..k] == init;
    } else {
      assert init[..k] == parts[..k];
      ConcatPart(init, k);
      assert Concat(parts)[..|Concat(init)|] == Concat(init);
    }
  }

  lemma ConcatPair(a: string, b: string)
    ensures Concat([a, b]) == a + b
  {
    assert [a, b][..1] == [a];
    assert [a][..0] == [];
    assert Concat([a]) == a;
  }

  lemma ConcatTriple(a: string, b: string, c: string)
    ensures Concat([a, b, c]) == a + b + c
  {
    assert [a, b, c][..2] == [a, b];
    ConcatPair(a, b);
  }

  /** filePathJoin: sum the lengths, reserve that much, then append the parts in order. */
  method FilePathJoin(args: seq<string>) returns (s: string)
    ensures s == Concat(args)
    ensures |s| == SumLengths(args)
  {
    var n := 0;
    var i := 0;
    while i < |args|
      invariant 0 <= i <= |args|
      invariant n == SumLengths(args[..i])
    {
      assert args[..i + 1][..i] == args[..i];
      n := n + |args[i]|;
      i := i + 1;
    }
    assert args[..i] == args;
    s := "";
    i := 0;
    while i < |args|
      invariant 0 <= i <= |args|
      invariant s == Concat(args[..i])
    {
      assert args[..i + 1][..i] == args[..i];
      s := s + args[i];
      i := i + 1;
    }
    assert args[..i] == args;
    assert |s| == n;
  }

  // ---------------------------------------------------------------------------
  // Start-up classification of the folder's entries

  /** Where the active file lives: filePath == fileDir + fileName, and filePrefix == fileName + ".". */
  datatype Layout = Layout(fileDir: string, fileName: string, filePath: string, filePrefix: string)

  /** What loading does with one entry. */
  datatype Verdict = Keep | Delete | Archive(date: FileDate) | Record(date: FileDate)

  /** The cases of loading's switch for one directory entry. */
  function Classify(name: string, node: Node, l: Layout, clock: Clock): (v: Verdict)
    ensures v.Archive? ==> name == l.fileName && Before(v.date.createAt, clock.current.createAt)
                           && Before(clock.current.createAt, v.date.expireAt)
    ensures v.Record? ==> HasPrefix(name, l.filePrefix) && Before(v.date.createAt, clock.current.createAt)
                          && Before(clock.current.createAt, v.date.expireAt)
    ensures node.isDir ==> v == Keep
  {
    var now := clock.current.createAt;
    if node.isDir then Keep
    else if name == l.fileName && |node.data| != 0 then
      var fd := clock.ofTime(node.modTime);
      if now == fd.createAt then Keep
      else if Before(fd.expireAt, now) || now == fd.expireAt then Delete
      else if Before(fd.createAt, now) && Before(now, fd.expireAt) then Archive(fd)
      else Keep
    else if HasPrefix(name, l.filePrefix) then
      match clock.ofText(TrimPrefix(name, l.filePrefix))
      case None => Keep
      case Some(fd) =>
        if Before(fd.expireAt, now) then Delete
        else if Before(fd.createAt, now) && Before(now, fd.expireAt) then Record(fd)
        else Keep
    else Keep
  }

  /** The active file, when not empty: kept on its own creation day, removed once its
      expiry has come, archived when today lies strictly inside its lifetime. */
  lemma ClassifyActiveFile(node: Node, l: Layout, clock: Clock)
    requires !node.isDir && |node.data| != 0
    ensures var fd := clock.ofTime(node.modTime);
            var now := clock.current.createAt;
            var v := Classify(l.fileName, node, l, clock);
            && (now == fd.createAt ==> v == Keep)
            && (now != fd.createAt && !Before(now, fd.expireAt) ==> v == Delete)
            && (now != fd.createAt && Before(fd.createAt, now) && Before(now, fd.expireAt) ==> v == Archive(fd))
            && (v.Delete? || v.Archive? ==> now != fd.createAt)
  {
  }

  /** An empty active file is left alone. */
  lemma ClassifyEmptyActiveFile(node: Node, l: Layout, clock: Clock)
    requires |node.data| == 0 && |l.filePrefix| > |l.fileName|
    ensures Classify(l.fileName, node, l, clock) == Keep
  {
  }

  /** An archive with a date text: removed exactly when today is after its expiry,
      recorded exactly when today lies strictly inside its lifetime; one without is kept. */
  lemma ClassifyArchive(name: string, node: Node, l: Layout, clock: Clock)
    requires !node.isDir && HasPrefix(name, l.filePrefix) && name != l.fileName
    ensures var now := clock.current.createAt;
            var v := Classify(name, node, l, clock);
            match clock.ofText(TrimPrefix(name, l.filePrefix))
            case None => v == Keep
            case Some(fd) =>
              && (v == Delete <==> Before(fd.expireAt, now))
              && (v == Record(fd) <==> !Before(fd.expireAt, now) && Before(fd.createAt, now) && Before(now, fd.expireAt))
  {
  }

  /** The verdict on a listed entry, judged on the attributes the listing gives it. */
  function VerdictOf(listing: Folder, l: Layout, clock: Clock, name: string): Verdict
    requires name in listing.links && listing.links[name] in listing.nodes
  {
    Classify(name, listing.nodes[listing.links[name]], l, clock)
  }

  /** The loop body of loading: the folder so far and the records so far, after one entry
      whose attributes are read from the directory listing `listing`. */
  function LoadStep(listing: Folder, l: Layout, clock: Clock, removeFails: set<string>, renameFails: bool,
                    acc: (Folder, seq<FileInfo>), name: string): (r: (Folder, seq<FileInfo>))
    requires name in listing.links && listing.links[name] in listing.nodes
    requires Wf(acc.0)
    ensures Wf(r.0) && r.0.nodes == acc.0.nodes
    ensures |r.1| == |acc.1| || (|r.1| == |acc.1| + 1 && r.1[..|acc.1|] == acc.1)
    ensures var v := VerdictOf(listing, l, clock, name);
            && (v == Keep ==> r == acc)
            && (v == Delete ==>
                  && r.1 == acc.1
                  && forall n :: n in r.0.links <==> n in acc.0.links && (n != name || name in removeFails))
            && (v.Archive? ==> forall n :: n in r.0.links ==> n in acc.0.links || n == l.filePrefix + v.date.text)
            && (v.Record? ==> r == (acc.0, acc.1 + [FileInfo(v.date, name, l.fileDir + name)]))
  {
    match VerdictOf(listing, l, clock, name)
    case Keep => acc
    case Delete => (Remove(acc.0, name, name in removeFails).0, acc.1)
    case Archive(fd) =>
      var target := l.filePrefix + fd.text;
      var (folder, err) := Rename(acc.0, name, target, renameFails);
      if err.None? then (folder, acc.1 + [FileInfo(fd, target, l.fileDir + target)]) else (folder, acc.1)
    case Record(fd) => (acc.0, acc.1 + [FileInfo(fd, name, l.fileDir + name)])
  }

  /** loading's loop over the listed names. */
  function LoadAll(listing: Folder, l: Layout, clock: Clock, removeFails: set<string>, renameFails: bool,
                   acc: (Folder, seq<FileInfo>), names: seq<string>): (r: (Folder, seq<FileInfo>))
    requires forall k | 0 <= k < |names| :: names[k] in listing.links && listing.links[names[k]] in listing.nodes
    requires Wf(acc.0)
    ensures Wf(r.0) && r.0.nodes == acc.0.nodes
    ensures |acc.1| <= |r.1| <= |acc.1| + |names| && r.1[..|acc.1|] == acc.1
    decreases |names|
  {
    if names == [] then acc
    else
      var r := LoadAll(listing, l, clock, removeFails, renameFails, acc, names[..|names| - 1]);
      LoadStep(listing, l, clock, removeFails, renameFails, r, names[|names| - 1])
  }

  /** Loading renames some listed entry onto `target`. */
  predicate RenamesOnto(listing: Folder, l: Layout, clock: Clock, name: string, target: string)
    requires name in listing.links && listing.links[name] in listing.nodes
  {
    var v := VerdictOf(listing, l, clock, name);
    v.Archive? && l.filePrefix + v.date.text == target
  }

  /** Over the whole listing: every entry judged Record is among the records, and every
      entry judged Delete whose removal does not fail is gone afterwards, unless a later
      entry is renamed onto its name. */
  lemma {:induction false} LoadAllEffects(listing: Folder, l: Layout, clock: Clock, removeFails: set<string>, renameFails: bool,
                                         acc: (Folder, seq<FileInfo>), names: seq<string>)
    requires forall k | 0 <= k < |names| :: names[k] in listing.links && listing.links[names[k]] in listing.nodes
    requires Wf(acc.0)
    ensures var r := LoadAll(listing, l, clock, removeFails, renameFails, acc, names);
            && (forall k | 0 <= k < |names| && VerdictOf(listing, l, clock, names[k]).Record? ::
                  FileInfo(VerdictOf(listing, l, clock, names[k]).date, names[k], l.fileDir + names[k]) in r.1)
            && (forall k | 0 <= k < |names| && VerdictOf(listing, l, clock, names[k]) == Delete && names[k] !in removeFails
                  && (forall j | k < j < |names| :: !RenamesOnto(listing, l, clock, names[j], names[k])) ::
                  names[k] !in r.0.links)
    decreases |names|
  {
    if names != [] {
      var init := names[..|names| - 1];
      var name := names[|names| - 1];
      LoadAllEffects(listing, l, clock, removeFails, renameFails, acc, init);
      var r := LoadAll(listing, l, clock, removeFails, renameFails, acc, init);
      var r' := LoadStep(listing, l, clock, removeFails, renameFails, r, name);
      assert LoadAll(listing, l, clock, removeFails, renameFails, acc, names) == r';
      forall k | 0 <= k < |names| && VerdictOf(listing, l, clock, names[k]).Record?
        ensures FileInfo(VerdictOf(listing, l, clock, names[k]).date, names[k], l.fileDir + names[k]) in r'.1
      {
        if k < |names| - 1 {
          assert names[k] == init[k];
          var x := FileInfo(VerdictOf(listing, l, clock, names[k]).date, names[k], l.fileDir + names[k]);
          var i :| 0 <= i < |r.1| && r.1[i] == x;
          assert r'.1[..|r.1|] == r.1;
          assert r'.1[i] == x;
        }
      }
      forall k | 0 <= k < |names| && VerdictOf(listing, l, clock, names[k]) == Delete && names[k] !in removeFails
                 && (forall j | k < j < |names| :: !RenamesOnto(listing, l, clock, names[j], names[k]))
        ensures names[k] !in r'.0.links
      {
        if k < |names| - 1 {
          assert names[k] == init[k];
          assert forall j | k < j < |init| :: init[j] == names[j];
          assert !RenamesOnto(listing, l, clock, name, names[k]);
        }
      }
    }
  }

  /** The active file is recorded only when its rename succeeded, under its new name,
      which then names the file's inode. */
  lemma ArchiveRecordedOnlyIfRenamed(listing: Folder, l: Layout, clock: Clock, removeFails: set<string>, renameFails: bool,
                                     acc: (Folder, seq<FileInfo>), name: string)
    requires name in listing.links && listing.links[name] in listing.nodes && Wf(acc.0)
    requires Classify(name, listing.nodes[listing.links[name]], l, clock).Archive?
    ensures var fd := Classify(name, listing.nodes[listing.links[name]], l, clock).date;
            var target := l.filePrefix + fd.text;
            var r := LoadStep(listing, l, clock, removeFails, renameFails, acc, name);
            && (|r.1| == |acc.1| + 1 <==> Rename(acc.0, name, target, renameFails).1.None?)
            && (|r.1| == |acc.1| + 1 ==> r.1[|acc.1|] == FileInfo(fd, target, l.fileDir + target)
                                         && (name in acc.0.links ==> target in r.0.links && r.0.links[target] == acc.0.links[name]))
  {
  }

  /** Every file loading records was created before today and expires after it. */
  predicate Live(list: seq<FileInfo>, now: Instant)
  {
    forall k | 0 <= k < |list| :: Before(list[k].date.createAt, now) && Before(now, list[k].date.expireAt)
  }

  lemma {:induction false} LoadAllRecordsLive(listing: Folder, l: Layout, clock: Clock, removeFails: set<string>, renameFails: bool,
                                             acc: (Folder, seq<FileInfo>), names: seq<string>)
    requires forall k | 0 <= k < |names| :: names[k] in listing.links && listing.links[names[k]] in listing.nodes
    requires Wf(acc.0) && Live(acc.1, clock.current.createAt)
    ensures Live(LoadAll(listing, l, clock, removeFails, renameFails, acc, names).1, clock.current.createAt)
    decreases |names|
  {
    if names != [] {
      var init := names[..|names| - 1];
      LoadAllRecordsLive(listing, l, clock, removeFails, renameFails, acc, init);
      var r := LoadAll(listing, l, clock, removeFails, renameFails, acc, init);
      var name := names[|names| - 1];
      var v := Classify(name, listing.nodes[listing.links[name]], l, clock);
      var r' := LoadStep(listing, l, clock, removeFails, renameFails, r, name);
      if |r'.1| == |r.1| + 1 {
        assert r'.1[|r.1|].date == v.date;
      }
    }
  }

  // ---------------------------------------------------------------------------
  // Sorting the records by creation time (sort.Slice with createAt.Before)

  /** Each record is created no earlier than the one before it. */
  predicate SortedByCreateAt(list: seq<FileInfo>)
  {
    forall i | 0 < i < |list| :: !Before(list[i].date.createAt, list[i - 1].date.createAt)
  }

  /** Sorted records are in order pairwise, not only neighbour by neighbour. */
  lemma {:induction false} SortedAllPairs(list: seq<FileInfo>, i: int, j: int)
    requires SortedByCreateAt(list) && 0 <= i <= j < |list|
    ensures !Before(list[j].date.createAt, list[i].date.createAt)
    decreases j - i
  {
    if i < j {
      SortedAllPairs(list, i, j - 1);
    }
  }

  function Insert(x: FileInfo, list: seq<FileInfo>): (r: seq<FileInfo>)
    requires SortedByCreateAt(list)
    ensures SortedByCreateAt(r)
    ensures multiset(r) == multiset(list) + multiset{x}
    ensures |r| == |list| + 1 && (r[0] == x || (list != [] && r[0] == list[0]))
  {
    if list == [] then [x]
    else if !Before(list[0].date.createAt, x.date.createAt) then [x] + list
    else
      assert list == [list[0]] + list[1..];
      var rest := Insert(x, list[1..]);
      assert !Before(rest[0].date.createAt, list[0].date.createAt);
      [list[0]] + rest
  }

  /** One ordering sort.Slice may produce; equal creation times are kept in listing order. */
  function SortByCreateAt(list: seq<FileInfo>): (r: seq<FileInfo>)
    ensures SortedByCreateAt(r)
    ensures multiset(r) == multiset(list)
  {
    if list == [] then []
    else
      assert list == list[..|list| - 1] + [list[|list| - 1]];
      Insert(list[|list| - 1], SortByCreateAt(list[..|list| - 1]))
  }

  // ---------------------------------------------------------------------------
  // The handle state and openCurrentFile

  /** The fields openCurrentFile and closeCurrentFile touch, with the folder. */
  datatype State = State(writer: Option<Ino>, current: Option<FileInfo>, stack: seq<FileInfo>, folder: Folder)

  predicate IsOpen(s: State)
  {
    s.current.Some? && s.writer.Some?
  }

  /** closeCurrentFile: both fields become nil when both were set; otherwise nothing changes. */
  function CloseCurrentFileSpec(s: State): (r: State)
    ensures !IsOpen(r)
    ensures r.stack == s.stack && r.folder == s.folder
    ensures IsOpen(s) ==> r.writer.None? && r.current.None?
    ensures !IsOpen(s) ==> r == s
  {
    if IsOpen(s) then s.(writer := None, current := None) else s
  }

  /** The step both versions share: rename the previous active file to `prefix + date`,
      record the new path, push it and close it. The rename's error is ignored. */
  function ArchiveCurrent(s: State, l: Layout, renameFails: bool): (r: State)
    requires IsOpen(s)
    ensures r.writer.None? && r.current.None?
    ensures r.stack == s.stack + [s.current.value.(filePath := l.fileDir + l.filePrefix + s.current.value.date.text)]
    ensures r.folder == Rename(s.folder, s.current.value.fileName, l.filePrefix + s.current.value.date.text, renameFails).0
  {
    var cur := s.current.value;
    var newPath := l.fileDir + l.filePrefix + cur.date.text;
    var folder := Rename(s.folder, cur.fileName, l.filePrefix + cur.date.text, renameFails).0;
    CloseCurrentFileSpec(s.(folder := folder, current := Some(cur.(filePath := newPath)), stack := s.stack + [cur.(filePath := newPath)]))
  }

  /** openCurrentFile as written: the active path is opened BEFORE the previous file is
      renamed, so the new handle is the previous file's inode under its archive name. */
  function OpenCurrentFileAsWritten(s: State, l: Layout, date: FileDate, now: Instant, renameFails: bool, openFails: bool): (r: (State, Option<IoError>))
    requires Wf(s.folder)
    ensures r.1.Some? ==> r.0 == s
    ensures Wf(r.0.folder)
    ensures r.1.None? ==> r.0.current == Some(FileInfo(date, l.fileName, l.filePath)) && r.0.writer.Some?
    ensures r.1.None? && IsOpen(s) ==>
              r.0.stack == s.stack + [s.current.value.(filePath := l.fileDir + l.filePrefix + s.current.value.date.text)]
    ensures r.1.None? && !IsOpen(s) ==> r.0.stack == s.stack
  {
    var (folder, file) := OpenAppend(s.folder, l.fileName, now, openFails);
    if file.Err? then (s, Some(file.error))
    else
      var s1 := if IsOpen(s) then ArchiveCurrent(s.(folder := folder), l, renameFails) else s.(folder := folder);
      (s1.(writer := Some(file.value), current := Some(FileInfo(date, l.fileName, l.filePath))), None)
  }

  /** openCurrentFile as intended: archive the previous file first, then open the
      active path, which now names a fresh file. */
  function OpenCurrentFileSpec(s: State, l: Layout, date: FileDate, now: Instant, renameFails: bool, openFails: bool): (r: (State, Option<IoError>))
    requires Wf(s.folder)
    ensures Wf(r.0.folder)
    ensures r.1.Some? ==> !IsOpen(r.0)
    ensures r.1.None? ==> r.0.current == Some(FileInfo(date, l.fileName, l.filePath)) && r.0.writer.Some?
                          && l.fileName in r.0.folder.links && r.0.folder.links[l.fileName] == r.0.writer.value
    ensures IsOpen(s) ==>
              r.0.stack == s.stack + [s.current.value.(filePath := l.fileDir + l.filePrefix + s.current.value.date.text)]
    ensures !IsOpen(s) ==> r.0.stack == s.stack
  {
    var s1 := if IsOpen(s) then ArchiveCurrent(s, l, renameFails) else s;
    var (folder, file) := OpenAppend(s1.folder, l.fileName, now, openFails);
    if file.Err? then (s1, Some(file.error))
    else (s1.(writer := Some(file.value), current := Some(FileInfo(date, l.fileName, l.filePath)), folder := folder), None)
  }

  /** The defect: when the previous active file is open and linked at the active name,
      and its rename succeeds, the new handle is that same inode, now named by the
      archive, and no file is left at the active name. */
  lemma AsWrittenWritesIntoArchive(s: State, l: Layout, date: FileDate, now: Instant)
    requires Wf(s.folder) && IsOpen(s)
    requires s.current.value.fileName == l.fileName
    requires l.fileName in s.folder.links && !IsDirAt(s.folder, l.fileName)
    requires l.filePrefix + s.current.value.date.text != l.fileName
    requires !IsDirAt(s.folder, l.filePrefix + s.current.value.date.text)
    ensures var ino := s.folder.links[l.fileName];
            var archive := l.filePrefix + s.current.value.date.text;
            var r := OpenCurrentFileAsWritten(s, l, date, now, false, false);
            && r.1.None? && r.0.writer == Some(ino)
            && archive in r.0.folder.links && r.0.folder.links[archive] == ino
            && l.fileName !in r.0.folder.links
  {
  }

  /** The intended behaviour: the new handle is a fresh empty file at the active name,
      and the archive keeps the previous inode with its contents. */
  lemma CorrectedStartsFreshFile(s: State, l: Layout, date: FileDate, now: Instant)
    requires Wf(s.folder) && IsOpen(s)
    requires s.current.value.fileName == l.fileName
    requires l.fileName in s.folder.links && !IsDirAt(s.folder, l.fileName)
    requires l.filePrefix + s.current.value.date.text != l.fileName
    requires !IsDirAt(s.folder, l.filePrefix + s.current.value.date.text)
    ensures var ino := s.folder.links[l.fileName];
            var archive := l.filePrefix + s.current.value.date.text;
            var r := OpenCurrentFileSpec(s, l, date, now, false, false);
            r.1.None? && r.0.writer == Some(s.folder.nextIno) && r.0.writer != Some(ino)
    ensures var r := OpenCurrentFileSpec(s, l, date, now, false, false);
            r.0.folder.nodes[s.folder.nextIno].data == []
    ensures var ino := s.folder.links[l.fileName];
            var archive := l.filePrefix + s.current.value.date.text;
            var r := OpenCurrentFileSpec(s, l, date, now, false, false);
            archive in r.0.folder.links && r.0.folder.links[archive] == ino
    ensures var ino := s.folder.links[l.fileName];
            var r := OpenCurrentFileSpec(s, l, date, now, false, false);
            r.0.folder.nodes[ino] == s.folder.nodes[ino]
    ensures var archive := l.filePrefix + s.current.value.date.text;
            var r := OpenCurrentFileSpec(s, l, date, now, false, false);
            r.0.stack == s.stack + [s.current.value.(filePath := l.fileDir + archive)]
  {
    var ino := s.folder.links[l.fileName];
    var archive := l.filePrefix + s.current.value.date.text;
    var s1 := ArchiveCurrent(s, l, false);
    assert s1.folder.links == (s.folder.links - {l.fileName})[archive := ino];
    assert l.fileName !in s1.folder.links;
    var r := OpenCurrentFileSpec(s, l, date, now, false, false);
    assert r.0.folder == OpenAppend(s1.folder, l.fileName, now, false).0;
    assert ino in s1.folder.nodes;
    assert r.0.folder.links[archive] == ino;
    assert r.0.writer == Some(s.folder.nextIno);
    assert l.fileDir + archive == l.fileDir + l.filePrefix + s.current.value.date.text;
  }

  /** With no previous file open (as at start-up) the two versions agree. */
  lemma OpenCurrentFileAgreeWhenClosed(s: State, l: Layout, date: FileDate, now: Instant, renameFails: bool, openFails: bool)
    requires Wf(s.folder) && !IsOpen(s)
    ensures OpenCurrentFileAsWritten(s, l, date, now, renameFails, openFails)
         == OpenCurrentFileSpec(s, l, date, now, renameFails, openFails)
  {
  }

  /** As written, a failed open changes nothing: not the handle, the current file, the stack or the folder. */
  lemma AsWrittenFailedOpenChangesNothing(s: State, l: Layout, date: FileDate, now: Instant, renameFails: bool)
    requires Wf(s.folder)
    ensures OpenCurrentFileAsWritten(s, l, date, now, renameFails, true) == (s, Some(Failed))
  {
  }

  // ---------------------------------------------------------------------------
  // The writer

  /** What the start-up directory scan meets: ReadDir's error, whether MkdirAll fails,
      which removals fail, whether the active file's rename fails, and whether
      openCurrentFile's rename and open fail. */
  datatype LoadFaults = LoadFaults(dirError: Option<IoError>, mkdirFails: bool, removeFails: set<string>,
                                   renameFails: bool, openRenameFails: bool, openFails: bool)

  /** loading gives up: ReadDir failed otherwise than with a missing folder, or MkdirAll failed. */
  predicate LoadFails(io: LoadFaults)
  {
    io.dirError.Some? && (io.dirError.value != NotExist || io.mkdirFails)
  }

  /** loading: give up on a failed ReadDir or MkdirAll; otherwise classify the entries,
      push the records sorted by creation time, and open the active file (whose
      error is ignored). */
  function LoadingSpec(s: State, l: Layout, entries: seq<string>, clock: Clock, now: Instant, io: LoadFaults): (r: (State, Option<IoError>))
    requires Wf(s.folder)
    requires forall k | 0 <= k < |entries| :: entries[k] in s.folder.links
    ensures r.1.Some? <==> LoadFails(io)
    ensures r.1.Some? ==> r.0 == s
    ensures Wf(r.0.folder)
  {
    if LoadFails(io) then (s, Some(if io.dirError.value != NotExist then io.dirError.value else Failed))
    else
      var (folder, list) := LoadAll(s.folder, l, clock, io.removeFails, io.renameFails, (s.folder, []), entries);
      var s1 := s.(folder := folder, stack := s.stack + SortByCreateAt(list));
      (OpenCurrentFileSpec(s1, l, clock.current, now, io.openRenameFails, io.openFails).0, None)
  }

  /** At start-up (no file open), a successful loading leaves every expired archive
      removed unless its removal failed or a later entry was renamed onto it, and
      pushes every file it judged live. */
  lemma LoadingRemovesExpiredKeepsLive(s: State, l: Layout, entries: seq<string>, clock: Clock, now: Instant, io: LoadFaults)
    requires Wf(s.folder) && !IsOpen(s) && !LoadFails(io)
    requires forall k | 0 <= k < |entries| :: entries[k] in s.folder.links
    ensures var r := LoadingSpec(s, l, entries, clock, now, io).0;
            && (forall k | 0 <= k < |entries| && VerdictOf(s.folder, l, clock, entries[k]) == Delete
                  && entries[k] !in io.removeFails && entries[k] != l.fileName
                  && (forall j | k < j < |entries| :: !RenamesOnto(s.folder, l, clock, entries[j], entries[k])) ::
                  entries[k] !in r.folder.links)
            && (forall k | 0 <= k < |entries| && VerdictOf(s.folder, l, clock, entries[k]).Record? ::
                  FileInfo(VerdictOf(s.folder, l, clock, entries[k]).date, entries[k], l.fileDir + entries[k]) in r.stack)
  {
    LoadAllEffects(s.folder, l, clock, io.removeFails, io.renameFails, (s.folder, []), entries);
    var (folder, list) := LoadAll(s.folder, l, clock, io.removeFails, io.renameFails, (s.folder, []), entries);
    var sorted := SortByCreateAt(list);
    assert multiset(sorted) == multiset(list);
    forall x | x in list ensures x in sorted {
      assert x in multiset(list);
    }
  }

  /** At start-up (no file open), loading pushes exactly the recorded files, oldest
      first, each one created before today and expiring after it. */
  lemma LoadingPushesOldestFirst(s: State, l: Layout, entries: seq<string>, clock: Clock, now: Instant, io: LoadFaults)
    requires Wf(s.folder) && !IsOpen(s) && !LoadFails(io)
    requires forall k | 0 <= k < |entries| :: entries[k] in s.folder.links
    ensures var list := LoadAll(s.folder, l, clock, io.removeFails, io.renameFails, (s.folder, []), entries).1;
            var pushed := LoadingSpec(s, l, entries, clock, now, io).0.stack[|s.stack|..];
            && LoadingSpec(s, l, entries, clock, now, io).0.stack == s.stack + pushed
            && SortedByCreateAt(pushed) && multiset(pushed) == multiset(list)
            && Live(pushed, clock.current.createAt)
  {
    var (folder, list) := LoadAll(s.folder, l, clock, io.removeFails, io.renameFails, (s.folder, []), entries);
    var sorted := SortByCreateAt(list);
    var s1 := s.(folder := folder, stack := s.stack + sorted);
    assert !IsOpen(s1);
    assert LoadingSpec(s, l, entries, clock, now, io).0.stack == s1.stack;
    LoadAllRecordsLive(s.folder, l, clock, io.removeFails, io.renameFails, (s.folder, []), entries);
    PermutationKeepsLive(list, sorted, clock.current.createAt);
    assert (s.stack + sorted)[|s.stack|..] == sorted;
  }

  /** Liveness is a property of each record, so a permutation keeps it. */
  lemma PermutationKeepsLive(list: seq<FileInfo>, perm: seq<FileInfo>, today: Instant)
    requires Live(list, today) && multiset(perm) == multiset(list)
    ensures Live(perm, today)
  {
    forall k | 0 <= k < |perm|
      ensures Before(perm[k].date.createAt, today) && Before(today, perm[k].date.expireAt)
    {
      assert perm[k] in multiset(list);
    }
  }

  class FileWriter {
    var fileDir: string
    var fileName: string
    var filePath: string
    var filePrefix: string

    var opts: Options
    var writer: Option<Ino>
    var current: Option<FileInfo>
    var stack: seq<FileInfo>
    const fs: FileSystem

    function Where(): Layout
      reads this
    {
      Layout(fileDir, fileName, filePath, filePrefix)
    }

    function Snapshot(): State
      reads this, fs
    {
      State(writer, current, stack, fs.folder)
    }

    /** The struct literal of New, before repo. */
    constructor(opts: Options, fs: FileSystem)
      ensures this.opts == opts && this.fs == fs
      ensures writer.None? && current.None? && stack == []
      ensures fileDir == "" && fileName == "" && filePath == "" && filePrefix == ""
    {
      this.opts := opts;
      this.fs := fs;
      fileDir, fileName, filePath, filePrefix := "", "", "", "";
      writer, current, stack := None, None, [];
    }

    method IsNotNil() returns (b: bool)
      ensures b <==> IsOpen(Snapshot())
    {
      b := current.Some? && writer.Some?;
    }

    /** Write: appends through the handle when one is open; otherwise writes nothing and reports no error. */
    method Write(p: seq<Byte>, now: Instant, writeFails: bool) returns (n: nat, err: Option<IoError>)
      modifies fs
      ensures !IsOpen(Snapshot()) ==> n == 0 && err.None? && fs.folder == old(fs.folder)
      ensures IsOpen(Snapshot()) ==>
                var r := Append(old(fs.folder), writer.value, p, now, writeFails);
                fs.folder == r.0 && err == r.1 && n == (if r.1.None? then |p| else 0)
    {
      n, err := 0, None;
      var ok := IsNotNil();
      if ok {
        var written := Append(fs.folder, writer.value, p, now, writeFails);
        fs.folder := written.0;
        err := written.1;
        n := if err.None? then |p| else 0;
      }
    }

    method CloseCurrentFile()
      modifies this
      ensures Snapshot() == CloseCurrentFileSpec(old(Snapshot()))
      ensures Where() == old(Where()) && opts == old(opts)
    {
      if current.Some? && writer.Some? {
        writer := None;
        current := None;
      }
    }

    method Push(info: FileInfo)
      modifies this
      ensures stack == old(stack) + [info]
      ensures writer == old(writer) && current == old(current) && Where() == old(Where()) && opts == old(opts)
    {
      stack := stack + [info];
    }

    /** openCurrentFile, with the previous file archived before the active path is opened. */
    method OpenCurrentFile(date: FileDate, now: Instant, renameFails: bool, openFails: bool) returns (err: Option<IoError>)
      requires Wf(fs.folder)
      modifies this, fs
      ensures (Snapshot(), err) == OpenCurrentFileSpec(old(Snapshot()), old(Where()), date, now, renameFails, openFails)
      ensures Where() == old(Where()) && opts == old(opts)
    {
      if writer.Some? && current.Some? {
        var newPath := FilePathJoin([fileDir, filePrefix, current.value.date.text]);
        var entry := FilePathJoin([filePrefix, current.value.date.text]);
        ConcatTriple(fileDir, filePrefix, current.value.date.text);
        ConcatPair(filePrefix, current.value.date.text);
        var renamed := Rename(fs.folder, current.value.fileName, entry, renameFails);
        fs.folder := renamed.0;
        current := Some(current.value.(filePath := newPath));
        Push(current.value);
        CloseCurrentFile();
      }
      var file := OpenAppend(fs.folder, fileName, now, openFails);
      fs.folder := file.0;
      if file.1.Err? {
        return Some(file.1.error);
      }
      writer := Some(file.1.value);
      current := Some(FileInfo(date, fileName, filePath));
      err := None;
    }

    /** loading: classify the listed entries, push the recorded ones oldest first, open the active file. */
    method Loading(entries: seq<string>, clock: Clock, now: Instant, io: LoadFaults) returns (err: Option<IoError>)
      requires forall k | 0 <= k < |entries| :: entries[k] in fs.folder.links
      requires Wf(fs.folder)
      modifies this, fs
      ensures (Snapshot(), err) == LoadingSpec(old(Snapshot()), old(Where()), entries, clock, now, io)
      ensures Where() == old(Where()) && opts == old(opts)
    {
      if io.dirError.Some? {
        if io.dirError.value != NotExist {
          return Some(io.dirError.value);
        }
        if io.mkdirFails {
          return Some(Failed);
        }
        // the folder now exists: read it again
      }
      var list: seq<FileInfo> := [];
      if |entries| != 0 {
        list := LoadEntries(entries, clock, io);
        list := SortByCreateAt(list);
        PushAll(list);
      } else {
        assert stack == old(stack) + SortByCreateAt([]);
      }
      var ignored := OpenCurrentFile(clock.current, now, io.openRenameFails, io.openFails);
      err := None;
    }

    /** loading's loop over the directory listing: remove, rename and record entries. */
    method LoadEntries(entries: seq<string>, clock: Clock, io: LoadFaults) returns (list: seq<FileInfo>)
      requires forall k | 0 <= k < |entries| :: entries[k] in fs.folder.links
      requires Wf(fs.folder)
      modifies fs
      ensures (fs.folder, list) == LoadAll(old(fs.folder), Where(), clock, io.removeFails, io.renameFails, (old(fs.folder), []), entries)
    {
      var listing := fs.folder;
      list := [];
      var i := 0;
      while i < |entries|
        invariant 0 <= i <= |entries|
        invariant Wf(fs.folder)
        invariant (fs.folder, list) == LoadAll(listing, Where(), clock, io.removeFails, io.renameFails, (listing, []), entries[..i])
      {
        assert entries[..i + 1][..i] == entries[..i];
        list := LoadEntry(listing, entries[i], clock, io, list);
        i := i + 1;
      }
      assert entries[..i] == entries;
    }

    /** One entry of loading's loop, read from the listing `listing`. */
    method LoadEntry(listing: Folder, name: string, clock: Clock, io: LoadFaults, list: seq<FileInfo>) returns (list': seq<FileInfo>)
      requires name in listing.links && listing.links[name] in listing.nodes
      requires Wf(fs.folder)
      modifies fs
      ensures (fs.folder, list') == LoadStep(listing, Where(), clock, io.removeFails, io.renameFails, (old(fs.folder), list), name)
    {
      list' := list;
      match Classify(name, listing.nodes[listing.links[name]], Where(), clock) {
        case Keep =>
        case Delete =>
          var removed := Remove(fs.folder, name, name in io.removeFails);
          fs.folder := removed.0;
        case Archive(fd) =>
          var target := FilePathJoin([filePrefix, fd.text]);
          var path := FilePathJoin([fileDir, target]);
          ConcatPair(filePrefix, fd.text);
          ConcatPair(fileDir, target);
          var renamed := Rename(fs.folder, name, target, io.renameFails);
          fs.folder := renamed.0;
          if renamed.1.None? {
            list' := list + [FileInfo(fd, target, path)];
          }
        case Record(fd) =>
          var path := FilePathJoin([fileDir, name]);
          ConcatPair(fileDir, name);
          list' := list + [FileInfo(fd, name, path)];
      }
    }

    /** Pushes the records in order. */
    method PushAll(list: seq<FileInfo>)
      modifies this
      ensures stack == old(stack) + list
      ensures writer == old(writer) && current == old(current) && Where() == old(Where()) && opts == old(opts)
    {
      var j := 0;
      while j < |list|
        invariant 0 <= j <= |list|
        invariant stack == old(stack) + list[..j]
        invariant writer == old(writer) && current == old(current)
        invariant Where() == old(Where()) && opts == old(opts)
      {
        assert list[..j + 1] == list[..j] + [list[j]];
        Push(list[j]);
        j := j + 1;
      }
      assert list[..j] == list;
    }

    /** repo: make the path absolute, split it, derive the archive prefix, then load. */
    method Repo(abs: Option<string>, entries: seq<string>, clock: Clock, now: Instant, io: LoadFaults) returns (err: Option<IoError>)
      requires forall k | 0 <= k < |entries| :: entries[k] in fs.folder.links
      requires Wf(fs.folder)
      modifies this, fs
      ensures abs.None? ==> err == Some(Failed) && Snapshot() == old(Snapshot()) && Where() == old(Where())
      ensures abs.Some? ==>
                && filePath == abs.value && (fileDir, fileName) == Split(abs.value)
                && fileDir + fileName == filePath && filePrefix == fileName + "."
                && (Snapshot(), err) == LoadingSpec(old(Snapshot()), Where(), entries, clock, now, io)
      ensures opts == old(opts)
    {
      if abs.None? {
        return Some(Failed);
      }
      filePath := abs.value;
      var parts := Split(abs.value);
      fileDir, fileName := parts.0, parts.1;
      filePrefix := FilePathJoin([fileName, "."]);
      ConcatPair(fileName, ".");
      err := Loading(entries, clock, now, io);
    }
  }

  /** The struct of a fresh writer for the given options. */
  method New(settings: seq<Setting>, fs: FileSystem, abs: string -> Option<string>,
             entries: seq<string>, clock: Clock, now: Instant, io: LoadFaults) returns (w: Option<FileWriter>)
    requires forall k | 0 <= k < |entries| :: entries[k] in fs.folder.links
    requires Wf(fs.folder)
    modifies fs
    ensures var opts := ApplyAll(DefaultOptions(), settings);
            w.Some? <==> opts.ttl >= 1 && abs(opts.filePath).Some? && !LoadFails(io)
    ensures w.Some? ==> fresh(w.value) && w.value.fs == fs && w.value.opts == ApplyAll(DefaultOptions(), settings)
                        && w.value.filePath == abs(w.value.opts.filePath).value
  {
    var opts := DefaultOptions();
    var i := 0;
    while i < |settings|
      invariant 0 <= i <= |settings|
      invariant ApplyAll(opts, settings[i..]) == ApplyAll(DefaultOptions(), settings)
    {
      assert settings[i..][1..] == settings[i + 1..];
      opts := Apply(opts, settings[i]);
      i := i + 1;
    }
    if opts.ttl - 1 < 0 {
      // make([]*fileInfo, TTL-1) panics
      return None;
    }
    var fw := new FileWriter(opts, fs);
    var err := fw.Repo(abs(opts.filePath), entries, clock, now, io);
    if err.Some? {
      // repo's error panics
      return None;
    }
    w := Some(fw);
  }
}
