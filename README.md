# A verified model of the logger's levels, zap wrapper and daily file writers

This project models the core of a small Go logging library built on zap. The model has five parts:

- **Levels.** There are six levels. Zap's levels and level names are looked up into them.
- **Logger value.** The zap-backed logger is modelled as a value: a pooled base logger, an optional context hook, and the named logger that writes. The model covers its level filter and its `CallerSkip`, `Named` and `Context` copies.
- **Logger options.** The logger's default options.
- **Rotating file writer** (`filewriter/writer.go` with `writer/options.go`). It appends to one active file. At the file's expiry (the next midnight) it renames the file to `name.YYYY-MM-DD` and starts a fresh one. Its tidy sweep deletes archives older than `maxRolls` days.
- **Stack file writer** (`filewriter/file_writer.go`). At start-up it scans the log folder. Stale files are removed and live archives are pushed oldest first. It then opens the active file.

Time is an `Instant`: a day number (1970-01-01 is day 0) and the nanoseconds since that day's midnight, in one fixed zone. Calendar dates and day numbers are converted both ways, and the conversions are proved mutually inverse. So the date suffix `"2006-01-02"` (the full-date of section 5.6 of RFC 3339) that the writers format and parse is modelled exactly.

The operating system is modelled as a folder of names linked to inodes (`Disk.Folder`). An open handle follows its inode across a rename. Each system call that can fail takes a fault parameter. Clocks, `filepath.Abs`, directory listings and context hooks are also parameters.

Modules and files:

- `Common` (`common.dfy`): `Option`.
- `Civil` (`civil.dfy`): dates, day numbers, date text, midnights.
- `Paths` (`paths.dfy`): `HasPrefix`, `TrimPrefix`, `Ext`, `Split`.
- `Disk` (`disk.dfy`): the folder and the system calls.
- `Levels` (`level.dfy`).
- `ZapLogger` (`zap_logger.dfy`).
- `LoggerOptions` (`logger_options.dfy`).
- `RotatingFileWriter` (`rotating_writer.dfy`).
- `WriterOptions` (`writer_options.dfy`).
- `FileWriterOptions` (`filewriter_options.dfy`).
- `StackFileWriter` (`stack_writer.dfy`).

The Go methods that update a `fileWriter` or an `options` struct are Dafny class methods. Each method's `ensures` ties the new state to a value-level function of the old state (`WriteSpec`, `OpenSpec`, `LoadingSpec`, …). The lemmas state what the source promises about those functions.

## Model

| member | source | states |
|---|---|---|
| Levels.LevelOrder | level.go:12-22 | The six levels have distinct values 0..5 from Trace to Fatal; Trace is the minimum and Fatal the maximum. |
| Levels.ConvertZapLevel | level.go:53-58 | zap Debug..Error land two steps up the logger scale, DPanic/Panic/Fatal on Fatal, anything else on Trace. |
| Levels.ConvertString | level.go:61-67 | The result is the level the text names, or Trace when no level has that name. |
| Levels.ConvertZapTable | level.go:33-41 | zap Debug/Info/Warn/Error map to their namesakes; DPanic, Panic and Fatal all map to Fatal. |
| Levels.ConvertZapOutside | level.go:53-58 | A zap level outside the table (below -1 or above 5) falls back to Trace. |
| Levels.ConvertZapMonotone | level.go:33-41 | On the table's domain the conversion preserves the order of severities. |
| Levels.ConvertStringOfName | level.go:43-50 | Each level's lowercase name converts back to that level. |
| Levels.ConvertStringExact | level.go:61-67 | Exactly the six lowercase names are recognised; any other text gives Trace. |
| Levels.ConvertStringExamples | level.go:61-67 | "INFO" and "" give Trace, "warn" gives Warn (matching is case-sensitive). |
| ZapLogger.Wrap | zap.go:22-32 | The name is empty exactly when the result is; otherwise the result is two characters longer, starting with '[' and ending with ']' (that the name sits between them is WrapRoundTrip's). |
| ZapLogger.WrapRoundTrip | zap.go:22-32 | Unwrapping recovers the name, so wrap is injective. |
| ZapLogger.EnabledAsWritten | zap.go:49-53 | The filter as written never admits zap Debug and admits only zap levels from Info up. |
| ZapLogger.Enabled | zap.go:49-53 | The intended filter admits zap Debug..Error exactly when the level two steps up reaches the minimum, and always admits DPanic/Panic/Fatal. |
| ZapLogger.AsWrittenDropsAdmittedLevels | zap.go:49-53 | The filter as written drops zap Debug at minimum level Trace and zap Warn at minimum Info; the intended filter admits both (see Findings). |
| ZapLogger.AsWrittenNeverAdmitsMore | zap.go:49-53 | On zap's seven levels the written filter admits nothing that the intended filter drops. |
| ZapLogger.EnabledProperties | zap.go:49-53 | The intended filter admits everything at the lowest minimum, always admits DPanic/Panic/Fatal, and is monotone in the level. |
| ZapLogger.Sinks | zap.go:56-61 | The console is always the first core; the configured writer is a second core exactly when set. |
| ZapLogger.ZapNamed | zap.go:63-72 | Naming keeps the caller skip, cores and level; an unnamed logger takes the name. |
| ZapLogger.New | zap.go:35-73 | The pooled base is the unnamed logger over the configured cores, skip and minimum level; the writing logger is that base carrying the wrapped name, and the hook is the configured one. |
| ZapLogger.CallerSkip | zap.go:82-89 | Skip 0 returns the receiver; otherwise the writing logger's skip grows by `skip` while its name, cores and minimum level, the base and the hook stay. |
| ZapLogger.Named | zap.go:101-110 | "" returns the receiver; otherwise the writing logger has the wrapped name and the base's skip, cores and minimum level. |
| ZapLogger.Context | zap.go:92-97 | Without a hook the receiver; with one, the hook's result. |
| ZapLogger.CallerSkipsAdd | zap.go:82-89 | Two CallerSkip calls equal one with the summed skip. |
| ZapLogger.NamedReplaces | zap.go:101-110 | Naming twice keeps only the last name. |
| ZapLogger.NamedDropsCallerSkip | zap.go:76-110 | A CallerSkip applied before Named is lost. |
| LoggerOptions.DefaultOptions | options.go:34-41 | Skip one caller frame, admit Trace through Fatal, no name, writer or base skip. |
| LoggerOptions.DefaultsAreEmpty | options.go:34-41 | Defaults skip one frame and leave name, level names, writer and base skip empty. |
| LoggerOptions.DefaultsAdmitEveryLevel | options.go:34-41 | Default bounds are Trace and Fatal, so every level lies between them. |
| LoggerOptions.DateFormatShape | options.go:5-10 | The console layout is "2006-01-02 15:04:05.000": the archives' date layout, a space and the time to milliseconds. |
| Paths.TrimPrefix | filewriter/file_writer.go:184 | With the prefix, prefix + result is the input; without it the input is unchanged. |
| Paths.Ext | filewriter/writer.go:160 | The result is empty or a '.'-led suffix of the path with no further '.' or '/'. |
| Paths.ExtOfDotted | filewriter/writer.go:160-161 | The extension of `a + "." + b`, for b without '.' or '/', is "." + b. |
| Paths.Split | writer/options.go:61 | Directory + file is the path; the file has no '/'; the directory is empty or ends in '/'. |
| Disk.Stat | filewriter/writer.go:112-119 | Succeeds with the node linked at the name; NotExist exactly when the name is absent. |
| Disk.Rename | filewriter/writer.go:106-108 | Succeeds exactly when it does not fail, the source exists and the target is not a directory; on failure nothing changes. |
| Disk.Remove | filewriter/writer.go:165 | On success exactly the name is unlinked; on failure nothing changes. |
| Disk.OpenAppend | filewriter/writer.go:135-138 | On success the name links to a non-directory inode; no other name is linked or unlinked and existing inodes are untouched; on failure nothing changes. |
| Disk.Append | filewriter/writer.go:78 | On success the inode's bytes gain `p` at the end and every other inode is unchanged. |
| Civil.Midnight | filewriter/writer.go:189-191 | The result is a midnight, and it lies after t exactly when the offset is positive. |
| Civil.FormatDate | filewriter/writer.go:184-186 | A valid date of years 0..9999 formats to 10 characters with '-' at positions 4 and 7. |
| Civil.ParseDate | filewriter/writer.go:162 | A text that parses is 10 characters and gives a valid date of years 0..9999. |
| Civil.ParseSuffix | filewriter/writer.go:162 | Succeeds exactly when the date parses, and gives the midnight of the parsed date. |
| Civil.TimeString | filewriter/writer.go:184-186 | For years 0..9999 the suffix is 10 characters and parses back to the instant's date. |
| Civil.DateRoundTrip | filewriter/writer.go:184-191 | The date of a valid date's day number is that date. |
| Civil.DayRoundTrip | filewriter/writer.go:184-191 | The day number of any day number's date is that number. |
| Civil.DateOfNextDay | filewriter/writer.go:189-191 | Day n+1 is dated with the calendar successor of day n's date, so adding days is calendar arithmetic. |
| Civil.DayNumberOfNextDate | filewriter/writer.go:189-191 | The calendar successor of a date has the next day number. |
| Civil.SplitYearStart | filewriter/writer.go:189-191 | Splitting a day of a 400-year era inverts the year-start table. |
| Civil.YearStartGap | filewriter/writer.go:189-191 | Years of an era do not overlap. |
| Civil.FormatThenParse | filewriter/writer.go:184-186 | The text of a date of years 0..9999 is 10 characters and parses back to that date. |
| Civil.ParseThenFormat | filewriter/writer.go:162 | A text that parses is exactly the formatted text of its date, and the year lies in 0..9999. |
| Civil.TimeStringParses | filewriter/writer.go:162-163 | Parsing an instant's date suffix gives that instant's midnight. |
| Civil.MidnightShifts | filewriter/writer.go:189-191 | Midnight shifts compose additively; an instant lies in [its midnight, next midnight). |
| RotatingFileWriter.CreateSpec | filewriter/writer.go:132-144 | On success a handle is open on the active file and the writer invariant holds. |
| RotatingFileWriter.OpenSpec | filewriter/writer.go:111-129 | On success a handle is open on the active file and the writer invariant holds. |
| RotatingFileWriter.RollIfDue | filewriter/writer.go:65-69 | Keeps the invariant on success; a failed roll leaves no handle. |
| RotatingFileWriter.OpenIfClosed | filewriter/writer.go:72-76 | On success a handle is open; on failure none is. |
| RotatingFileWriter.CloseSpec | filewriter/writer.go:82-88 | The handle becomes nil and the times stay; an error exactly when a handle was open and its close failed. |
| RotatingFileWriter.RollSpec | filewriter/writer.go:91-103 | The handle becomes nil; success exactly when the close and the rename succeed, and then the active file's inode sits at its creation day's archive name and the active name is free; failure leaves the folder as it was. |
| RotatingFileWriter.WriteSpec | filewriter/writer.go:61-79 | Stamps the time and keeps the invariant; on success the handle is the file at the active name and that file ends with the bytes written, counted in full; failure reports 0. |
| RotatingFileWriter.CloseIdempotent | filewriter/writer.go:82-88 | Closing drops the handle and keeps the dates; a second close is a no-op without error. |
| RotatingFileWriter.CreateSetsExpiry | filewriter/writer.go:132-144 | A successful create stamps the current time and expires at the next midnight. |
| RotatingFileWriter.ArchiveNameDiffers | filewriter/writer.go:106-108 | An archive name starts with, and differs from, the active name. |
| RotatingFileWriter.OpenMissingCreates | filewriter/writer.go:111-129 | With no active file, open creates an empty one at the active name. |
| RotatingFileWriter.OpenStaleArchives | filewriter/writer.go:117-125 | An active file from another day is renamed to its modification day's archive and a fresh file is created. |
| RotatingFileWriter.OpenSameDayReuses | filewriter/writer.go:117-128 | An active file of today's date is reopened for appending, inode unchanged. |
| RotatingFileWriter.FirstWriteStartsFile | filewriter/writer.go:61-79 | The first write into a folder without an active file creates it holding exactly the bytes, expiring at the next midnight. |
| RotatingFileWriter.SameDayWriteOnlyAppends | filewriter/writer.go:61-79 | Before expiry a write only appends to the open file; names and other files are unchanged. |
| RotatingFileWriter.RolloverArchivesAndStartsFresh | filewriter/writer.go:65-78 | At expiry the old inode moves to the archive of its creation day and the bytes go to a fresh active file. |
| RotatingFileWriter.FailedRenameLeavesClosed | filewriter/writer.go:91-103 | A failed archive rename leaves the handle closed, the folder intact and reports 0 bytes. |
| RotatingFileWriter.WriteAll | filewriter/writer.go:49-79 | Any sequence of writes keeps the writer invariant. |
| RotatingFileWriter.SameDayWritesAccumulate | filewriter/writer.go:49-79 | Writes before expiry all land, in order, in the one open file. |
| RotatingFileWriter.TimeStringPlain | filewriter/writer.go:184-186 | The date suffix is 10 characters without '.' or '/'. |
| RotatingFileWriter.ArchiveExpiresAfterMaxRolls | filewriter/writer.go:156-168 | A roll's archive is swept exactly when its day precedes the day maxRolls before now. |
| RotatingFileWriter.TidyVictims | filewriter/writer.go:156-169 | Tidy never deletes the active file; every victim is a listed name extending the active name. |
| RotatingFileWriter.TidyExample | filewriter/writer.go:156-168 | With 7 rolls on 2024-03-10, the 2024-03-02 archive is swept and the 2024-03-03 one kept. |
| RotatingFileWriter.SweptStep | filewriter/writer.go:158-169 | Sweeping one more entry adds it exactly when it is an expired archive whose removal succeeds. |
| RotatingFileWriter.FileWriter.constructor | writer/options.go:66-71 | The struct literal: the given settings, no file open, zero times. |
| RotatingFileWriter.FileWriter.Write | filewriter/writer.go:49-58 | Matches WriteSpec's new state and byte count, and never returns an error. |
| RotatingFileWriter.FileWriter.DoWrite | filewriter/writer.go:61-79 | New fields, folder, count and error are exactly WriteSpec of the old state. |
| RotatingFileWriter.FileWriter.WriteCurrent | filewriter/writer.go:78 | The folder and error are Append's on the open inode; the count is |p| or 0. |
| RotatingFileWriter.FileWriter.Close | filewriter/writer.go:82-88 | New state and error are CloseSpec of the old state. |
| RotatingFileWriter.FileWriter.Rolling | filewriter/writer.go:91-103 | New state and folder are RollSpec of the old. |
| RotatingFileWriter.FileWriter.RenameTo | filewriter/writer.go:106-108 | The folder is renamed from the active name to the archive name of the given day. |
| RotatingFileWriter.FileWriter.Open | filewriter/writer.go:111-129 | New state and folder are OpenSpec of the old. |
| RotatingFileWriter.FileWriter.Create | filewriter/writer.go:132-144 | New state and folder are CreateSpec of the old. |
| RotatingFileWriter.FileWriter.TidyEntry | filewriter/writer.go:159-168 | Unlinks the entry exactly when it is an expired archive whose removal succeeds. |
| RotatingFileWriter.FileWriter.Tidy | filewriter/writer.go:147-171 | A failed listing changes nothing; otherwise exactly the expired archives whose removal succeeds are unlinked. |
| WriterOptions.Set | writer/options.go:29-44 | Each option assigns its own field, whatever the value, and leaves the other. |
| WriterOptions.SetAll | writer/options.go:76-79 | Each field keeps its initial value or takes the value of one of the options of its kind. |
| WriterOptions.Patch | writer/options.go:81-86 | An empty path becomes "./log/log" and a count below 1 becomes 7; other values are kept. |
| WriterOptions.LastFilePathWins | writer/options.go:75-79 | The last FilePath option decides the path; with none the path is kept. |
| WriterOptions.LastMaxRollsWins | writer/options.go:75-79 | The last MaxRolls option decides the count; with none the count is kept. |
| WriterOptions.Options.constructor | writer/options.go:76 | A zero struct: empty path, count 0. |
| WriterOptions.Options.Apply | writer/options.go:24-26 | The new fields are Set of the old fields and the option. |
| WriterOptions.Options.FileWriter | writer/options.go:55-72 | Fails exactly when Abs or MkdirAll fails; otherwise a fresh writer whose folder and file are filepath.Split of the absolute path. |
| WriterOptions.Configuration | writer/options.go:75-89 | A fresh options struct holding the defaults patched over the options applied in order. |
| WriterOptions.New | filewriter/writer.go:174-181 | A writer exactly when the configured path's Abs and MkdirAll succeed; it keeps the configured roll count (at least one) and the folder and file that filepath.Split gives for the absolute path. |
| FileWriterOptions.Options.constructor | filewriter/options.go:4-9 | The struct holds the given path and count. |
| FileWriterOptions.Options.Path | filewriter/options.go:12-18 | A non-empty path replaces the output; "" changes nothing; the count is kept. |
| FileWriterOptions.Options.MaxRolls | filewriter/options.go:21-27 | A non-zero count replaces the old one (negatives included); 0 changes nothing. |
| StackFileWriter.Apply | filewriter/file_writer.go:55-66 | TTL and FilePath each assign their own field. |
| StackFileWriter.ApplyAll | filewriter/file_writer.go:69-73 | Each field keeps its default or takes the value of one of the options of its kind. |
| StackFileWriter.LastTTLWins | filewriter/file_writer.go:69-73 | The last TTL option decides the TTL. |
| StackFileWriter.NoTTLKeeps | filewriter/file_writer.go:69-73 | Without TTL options the default TTL stays. |
| StackFileWriter.Concat | filewriter/file_writer.go:266-279 | The joined text is as long as its parts together (the size Grow reserves). |
| StackFileWriter.ConcatPart | filewriter/file_writer.go:266-279 | Each part sits in the joined text at the offset of the parts before it. |
| StackFileWriter.FilePathJoin | filewriter/file_writer.go:266-279 | Returns the in-order concatenation of the parts, of length their summed lengths. |
| StackFileWriter.Classify | filewriter/file_writer.go:151-199 | Directories are kept; renames apply only to the active file and records only to prefixed names, both created before today. |
| StackFileWriter.ClassifyActiveFile | filewriter/file_writer.go:157-182 | A non-empty active file is kept on its creation day, removed at or after expiry, archived in between. |
| StackFileWriter.ClassifyEmptyActiveFile | filewriter/file_writer.go:157 | An empty active file is left alone. |
| StackFileWriter.ClassifyArchive | filewriter/file_writer.go:183-199 | A dated archive is removed strictly after its expiry, recorded while live, and an undated name is kept. |
| StackFileWriter.LoadStep | filewriter/file_writer.go:151-200 | A kept entry changes nothing; a deleted one is unlinked (unless its removal fails) and nothing else; an archived active file links at most its dated name; a recorded archive appends its FileInfo under its own name and path. Inodes are never touched. |
| StackFileWriter.LoadAll | filewriter/file_writer.go:150-201 | The loop keeps the folder well formed and its inodes, and extends the records by at most one per entry. |
| StackFileWriter.LoadAllEffects | filewriter/file_writer.go:150-201 | After the whole listing every entry judged live is among the records, and every expired entry is gone unless its removal failed or a later entry was renamed onto its name. |
| StackFileWriter.ArchiveRecordedOnlyIfRenamed | filewriter/file_writer.go:174-181 | The active file is recorded only when its rename succeeds, under its dated name and path. |
| StackFileWriter.LoadAllRecordsLive | filewriter/file_writer.go:151-200 | Every recorded file was created before today and expires after it. |
| StackFileWriter.SortedAllPairs | filewriter/file_writer.go:203-205 | Sorted records are ordered pairwise. |
| StackFileWriter.Insert | filewriter/file_writer.go:203-205 | Inserting keeps the list sorted and adds exactly the new record. |
| StackFileWriter.SortByCreateAt | filewriter/file_writer.go:203-205 | The result is sorted by creation time and is a permutation of the input. |
| StackFileWriter.PermutationKeepsLive | filewriter/file_writer.go:203-209 | Reordering keeps every record live. |
| StackFileWriter.CloseCurrentFileSpec | filewriter/file_writer.go:105-112 | Both fields become nil when both were set; otherwise nothing changes. |
| StackFileWriter.ArchiveCurrent | filewriter/file_writer.go:247-253 | Renames the active file to prefix + date, pushes it with its new path and closes it. |
| StackFileWriter.OpenCurrentFileAsWritten | filewriter/file_writer.go:241-263 | As written: a failed open changes nothing; success sets the new current file and handle, and a previously open file is pushed with its archive path. |
| StackFileWriter.OpenCurrentFileSpec | filewriter/file_writer.go:241-263 | A previously open file is pushed with its archive path; success records the new active file with a handle on the file at the active name; failure leaves nothing open. |
| StackFileWriter.AsWrittenWritesIntoArchive | filewriter/file_writer.go:241-263 | As written, the new handle is the old inode, which now sits at the archive name. |
| StackFileWriter.CorrectedStartsFreshFile | filewriter/file_writer.go:241-263 | Corrected: the old inode is archived unchanged and the new handle is a fresh empty file at the active name. |
| StackFileWriter.OpenCurrentFileAgreeWhenClosed | filewriter/file_writer.go:241-263 | With no file open (as at start-up) both versions agree. |
| StackFileWriter.AsWrittenFailedOpenChangesNothing | filewriter/file_writer.go:242-245 | As written, a failed open leaves state and folder untouched. |
| StackFileWriter.LoadingSpec | filewriter/file_writer.go:133-216 | Fails exactly on a failed listing or mkdir, and then changes nothing. |
| StackFileWriter.LoadingPushesOldestFirst | filewriter/file_writer.go:203-212 | At start-up the stack receives a sorted permutation of the recorded files, all live. |
| StackFileWriter.LoadingRemovesExpiredKeepsLive | filewriter/file_writer.go:133-216 | At start-up a successful loading leaves each expired archive removed (unless its removal failed, a later rename targeted it, or it is the active name) and pushes every live archive. |
| StackFileWriter.FileWriter.constructor | filewriter/file_writer.go:77-80 | No file open, empty stack, the given options. |
| StackFileWriter.FileWriter.IsNotNil | filewriter/file_writer.go:115-117 | True exactly when both the handle and the current file are set. |
| StackFileWriter.FileWriter.Write | filewriter/file_writer.go:90-97 | Without an open file writes nothing and reports no error; otherwise appends through the handle. |
| StackFileWriter.FileWriter.CloseCurrentFile | filewriter/file_writer.go:105-112 | The new state is CloseCurrentFileSpec of the old. |
| StackFileWriter.FileWriter.Push | filewriter/file_writer.go:251 | Appends the record to the stack; nothing else changes. |
| StackFileWriter.FileWriter.OpenCurrentFile | filewriter/file_writer.go:241-263 | The new state is OpenCurrentFileSpec of the old: a previously open file is archived and pushed, success leaves a handle on the active file; it archives before opening (see Left out). |
| StackFileWriter.FileWriter.Loading | filewriter/file_writer.go:133-216 | The new state is LoadingSpec of the old. |
| StackFileWriter.FileWriter.LoadEntries | filewriter/file_writer.go:150-201 | The folder and records are LoadAll of the listing. |
| StackFileWriter.FileWriter.LoadEntry | filewriter/file_writer.go:151-200 | One entry's effect is LoadStep. |
| StackFileWriter.FileWriter.PushAll | filewriter/file_writer.go:207-209 | The stack gains the records in order. |
| StackFileWriter.FileWriter.Repo | filewriter/file_writer.go:119-130 | A failed Abs changes nothing; otherwise the path is split, the prefix is name + "." and loading runs. |
| StackFileWriter.New | filewriter/file_writer.go:69-87 | A TTL below 1 gives no writer; otherwise a fresh writer with the options applied in order. |

## Left out

- Concurrency is left out: the mutexes, the `daemon` goroutine and the close channel of `file_writer.go`. `go fw.tidy()` after `create` is modelled as a separate `Tidy` call.
- Console and stack output is left out: `stderr`, `caller`, the `render` table, the warning `convertString` prints, `Flush`, and the Debug … Fatalf wrappers. `logger.go` is not part of this model.
- The `sync.Pool` of loggers is modelled as one base logger reused by every copy.
- Zap's encoder is left out. Zap's `Named` join rule (`a.b`) is assumed, since zap's source is not part of this model.
- Time zones and daylight saving are left out: time is one fixed zone, counted in whole days and nanoseconds of the day.
- `fileDate`, `newFileDate*` and `fileDate.string` are not part of this model. They are the `Clock` parameter, which is unconstrained: nothing is assumed about the dates it returns, and `Classify` compares creation and expiry times itself.
- The fixed capacity of `fileStack` is left out. The stack is an unbounded sequence.
- StackFileWriter.FileWriter.Loading: the retry after `ReadDir` reports a missing folder is modelled as one `MkdirAll` followed by a successful listing.
- StackFileWriter.FileWriter.Repo: `repo`'s panic in `New` becomes an error result.
- StackFileWriter.New: the panic of `make` with a negative length, for a TTL below 1, becomes a `None` result.
- StackFileWriter.FileWriter.OpenCurrentFile: it runs the corrected order, archive then open. With a file open and a failing open it has already renamed, pushed and closed the previous file, where the source changes nothing. Its only caller here is `Loading` at start-up, where no file is open, and `OpenCurrentFileAgreeWhenClosed` proves the two orders agree there.
- `filepath.Abs`, `MkdirAll` and `ReadDir` are parameters. The directory listing's contents come from the model folder.
- Partial writes are left out. A write appends all of its bytes or none.
- StackFileWriter.SortByCreateAt: it is one of the orders `sort.Slice` may produce. It keeps equal creation times in listing order, whereas Go's sort is not stable.
- StackFileWriter.OpenCurrentFileSpec: the corrected version closes the previous file before opening. So a failed open leaves nothing open, unlike the as-written "a failed open changes nothing".
- The rotating writer's struct in `writer.go` follows `writer/options.go` rather than `filewriter/options.go`, which comes from a different revision. `filewriter/options.go`'s setters are modelled on their own struct.

Observations about the source, not defects:

- `Named` starts from the pooled base, so a `CallerSkip` applied before it is lost (`NamedDropsCallerSkip`).
- In `loading`'s archive case, a file whose expiry equals today is neither removed (that needs strictly after) nor recorded (that needs strictly before).
- `tidy` checks only that a name extends the active name, not that a '.' follows it. A name such as `logx.2024-03-02` is swept too.

## Findings

| source | as written | input that shows it | evidently intended | confidence | as-written member | corrected member |
|---|---|---|---|---|---|---|
| zap.go:49-53 | The enabler compares zap's raw int8 level with the logger level, and the two scales differ by two. | Minimum Trace with a zap Debug (-1) message is dropped; minimum Info with a zap Warn (1) message is dropped. | Convert the zap level with `convertZapLevel` before comparing. | not executed | ZapLogger.AsWrittenDropsAdmittedLevels | ZapLogger.EnabledProperties |
| filewriter/file_writer.go:241-263 | `openCurrentFile` opens the active path, then renames that same path to the archive name. | A day change while the previous file is open at the active name: the new handle is the old inode, now at the archive name. | Rename the previous file first, then open a fresh active file. | not executed | StackFileWriter.AsWrittenWritesIntoArchive | StackFileWriter.CorrectedStartsFreshFile |
