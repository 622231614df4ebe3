/**
 * The logger's options and their defaults (options.go).
 */
module LoggerOptions {
  import opened Common
  import opened Levels
  import ZapLogger

  const DefaultCallerSkip: int := 1

  /** The console's time layout: the archive date layout followed by the time of day. */
  const DefaultDateFormat: string := "2006-01-02 15:04:05.000"

  /** Options: the public fields (Name, Skip, MinLevel, MaxLevel, Writer) and the
      private ones (baseSkip, minlevel, maxlevel). */
  datatype Options = Options(name: string, skip: int, minLevelName: string, maxLevelName: string,
                             writer: Option<ZapLogger.WriterId>, baseSkip: int, minlevel: Level, maxlevel: Level)

  /** defaultOptions: skip one caller, admit every level; everything else is zero. */
  function DefaultOptions(): (o: Options)
    ensures o.skip == DefaultCallerSkip && o.baseSkip == 0
    ensures o.minlevel == MinLevel && o.maxlevel == MaxLevel
    ensures o.name == "" && o.writer.None?
  {
    Options("", DefaultCallerSkip, "", "", None, 0, MinLevel, MaxLevel)
  }

  /** The defaults skip one caller frame and leave the name, the level names, the
      writer and the base skip empty. */
  lemma DefaultsAreEmpty()
    ensures DefaultOptions().skip == 1
    ensures DefaultOptions().name == "" && DefaultOptions().minLevelName == "" && DefaultOptions().maxLevelName == ""
    ensures DefaultOptions().writer.None? && DefaultOptions().baseSkip == 0
  {
  }

  /** The default level bounds are Trace and Fatal, so every level lies between them. */
  lemma DefaultsAdmitEveryLevel(l: Level)
    ensures DefaultOptions().minlevel == Trace && DefaultOptions().maxlevel == Fatal
    ensures Ord(DefaultOptions().minlevel) <= Ord(l) <= Ord(DefaultOptions().maxlevel)
  {
  }

  /** The console layout is the date layout of the archives, a space, and the time of day to milliseconds. */
  lemma DateFormatShape()
    ensures DefaultDateFormat == "2006-01-02 15:04:05.000"
    ensures DefaultDateFormat[..10] == "2006-01-02" && DefaultDateFormat[10..] == " 15:04:05.000"
  {
  }
}
