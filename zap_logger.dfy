/**
 * The logger value (zap.go): a pooled unnamed base logger, an optional context
 * hook, and the named logger that does the writing. The zap loggers are records
 * of their name, caller skip, outputs and minimum level; CallerSkip, Named and
 * Context return the receiver or a modified copy and never change the receiver.
 */
module ZapLogger {
  import opened Common
  import opened Levels

  // ---------------------------------------------------------------------------
  // Names

  /** wrap: a non-empty name in square brackets; the empty name stays empty. */
  function Wrap(v: string): (r: string)
    ensures v == "" <==> r == ""
    ensures v != "" ==> |r| == |v| + 2 && r[0] == '[' && r[|r| - 1] == ']'
  {
    if |v| != 0 then "[" + v + "]" else ""
  }

  /** Strips wrap's brackets. */
  function Unwrap(r: string): string
  {
    if |r| >= 2 then r[1..|r| - 1] else ""
  }

  /** Unwrap undoes wrap, so different names never wrap to the same text. */
  lemma WrapRoundTrip(v: string, w: string)
    ensures Unwrap(Wrap(v)) == v
    ensures Wrap(v) == Wrap(w) ==> v == w
  {
    if v != "" {
      assert Wrap(v)[1..|Wrap(v)| - 1] == v;
    }
    if w != "" {
      assert Wrap(w)[1..|Wrap(w)| - 1] == w;
    }
  }

  // ---------------------------------------------------------------------------
  // The level filter

  /** The filter as written: the zap level's int8 value is compared with the
      logger level's value, although the two scales are two apart. */
  predicate EnabledAsWritten(lv: ZapLevel, minlevel: Level): (b: bool)
    ensures lv == ZapDebug ==> !b
    ensures b ==> ZapInfo <= lv
  {
    lv as int >= Ord(minlevel)
  }

  /** The intended filter: the zap level is converted to a logger level first. */
  predicate Enabled(lv: ZapLevel, minlevel: Level): (b: bool)
    ensures ZapDebug <= lv <= ZapError ==> (b <==> Ord(minlevel) <= lv as int + 2)
    ensures ZapDPanic <= lv <= ZapFatal ==> b
  {
    Ord(ConvertZapLevel(lv)) >= Ord(minlevel)
  }

  /** As written, zap's Debug level is dropped even with the lowest minimum level,
      and with minimum level Info a Warn is dropped; the intended filter admits both. */
  lemma AsWrittenDropsAdmittedLevels()
    ensures !EnabledAsWritten(ZapDebug, Trace) && Enabled(ZapDebug, Trace)
    ensures !EnabledAsWritten(ZapWarn, Info) && Enabled(ZapWarn, Info)
  {
  }

  /** On the table's domain the written filter admits no level that the intended one
      drops: the defect only ever loses messages. */
  lemma AsWrittenNeverAdmitsMore(lv: ZapLevel, minlevel: Level)
    requires ZapDebug <= lv <= ZapFatal
    ensures EnabledAsWritten(lv, minlevel) ==> Enabled(lv, minlevel)
  {
  }

  /** The intended filter: everything passes at the lowest minimum, the panicking and
      fatal levels always pass, and raising the level never turns the filter off. */
  lemma EnabledProperties(lv: ZapLevel, hi: ZapLevel, minlevel: Level)
    ensures Enabled(lv, MinLevel)
    ensures ZapDPanic <= lv <= ZapFatal ==> Enabled(lv, minlevel)
    ensures ZapDebug <= lv <= hi <= ZapFatal && Enabled(lv, minlevel) ==> Enabled(hi, minlevel)
  {
    if ZapDebug <= lv <= hi <= ZapFatal {
      ConvertZapMonotone(lv, hi);
    }
  }

  // ---------------------------------------------------------------------------
  // The logger

  /** An io.Writer given in the options, by identity. */
  type WriterId = nat

  /** A ContextHook, by identity; what it does is a parameter of Context. */
  type HookId = nat

  /** A context.Context, by identity. */
  type Ctx = nat

  /** Where a core writes. */
  datatype Sink = Stdout | Writer(id: WriterId)

  /** A zap sugared logger: its name, caller skip, outputs and the minimum level of its filter. */
  datatype Sugared = Sugared(name: string, callerSkip: int, sinks: seq<Sink>, minlevel: Level)

  /** Logger: `base` is what the pool hands out, `sugared` the logger that writes. */
  datatype Logger = Logger(base: Sugared, hook: Option<HookId>, sugared: Sugared)

  /** The options New reads (name, callerSkip, minlevel, writer, contextHook). */
  datatype Config = Config(name: string, callerSkip: int, minlevel: Level, writer: Option<WriterId>, hook: Option<HookId>)

  /** The cores of New: the console always, the configured writer as a second core when set. */
  function Sinks(writer: Option<WriterId>): (r: seq<Sink>)
    ensures |r| >= 1 && r[0] == Stdout
    ensures forall w: WriterId :: Writer(w) in r <==> writer == Some(w)
    ensures |r| == if writer.Some? then 2 else 1
  {
    match writer
    case None => [Stdout]
    case Some(w) => [Stdout, Writer(w)]
  }

  /** zap's Named: a non-empty name is joined to the logger's name with '.', or
      becomes the name of an unnamed logger. */
  function ZapNamed(s: Sugared, n: string): (r: Sugared)
    ensures r.callerSkip == s.callerSkip && r.sinks == s.sinks && r.minlevel == s.minlevel
    ensures s.name == "" ==> r.name == n
  {
    if n == "" then s else if s.name == "" then s.(name := n) else s.(name := s.name + "." + n)
  }

  /** The loggers New and the three copy operations build: the pooled base is unnamed. */
  predicate WellFormed(log: Logger)
  {
    log.base.name == ""
  }

  /** New: one unnamed base logger over the cores, named by the wrapped name for writing. */
  function New(c: Config): (log: Logger)
    ensures WellFormed(log)
    ensures log.sugared.name == Wrap(c.name) && log.sugared.callerSkip == c.callerSkip
    ensures |log.sugared.sinks| >= 1 && log.sugared.sinks[0] == Stdout && log.hook == c.hook
    ensures forall w: WriterId :: Writer(w) in log.sugared.sinks <==> c.writer == Some(w)
    ensures log.sugared.minlevel == c.minlevel
    ensures log.base == Sugared("", c.callerSkip, Sinks(c.writer), c.minlevel)
  {
    var base := Sugared("", c.callerSkip, Sinks(c.writer), c.minlevel);
    Logger(base, c.hook, ZapNamed(base, Wrap(c.name)))
  }

  /** CallerSkip: the receiver itself for 0; otherwise a copy whose writing logger skips `skip` more frames. */
  function CallerSkip(log: Logger, skip: int): (r: Logger)
    ensures skip == 0 ==> r == log
    ensures r.base == log.base && r.hook == log.hook
    ensures r.sugared.name == log.sugared.name && r.sugared.sinks == log.sugared.sinks
    ensures r.sugared.minlevel == log.sugared.minlevel
    ensures r.sugared.callerSkip == log.sugared.callerSkip + skip
  {
    if skip != 0 then log.(sugared := log.sugared.(callerSkip := log.sugared.callerSkip + skip)) else log
  }

  /** Named: the receiver itself for ""; otherwise a copy whose writing logger is the
      pooled base named by the wrapped name, replacing rather than extending the name. */
  function Named(log: Logger, name: string): (r: Logger)
    requires WellFormed(log)
    ensures WellFormed(r)
    ensures name == "" ==> r == log
    ensures name != "" ==> r.sugared.name == Wrap(name) && r.sugared.callerSkip == log.base.callerSkip
    ensures name != "" ==> r.sugared.sinks == log.base.sinks && r.sugared.minlevel == log.base.minlevel
    ensures r.base == log.base && r.hook == log.hook
  {
    if |name| != 0 then log.(sugared := ZapNamed(log.base, Wrap(name))) else log
  }

  /** Context: the receiver itself without a hook, and the hook's result otherwise. */
  function Context(log: Logger, ctx: Ctx, runHook: (HookId, Ctx, Logger) -> Logger): (r: Logger)
    ensures log.hook.None? ==> r == log
    ensures log.hook.Some? ==> r == runHook(log.hook.value, ctx, log)
  {
    if log.hook.Some? then runHook(log.hook.value, ctx, log) else log
  }

  /** Caller skips add up over successive calls, and the pooled base is untouched. */
  lemma CallerSkipsAdd(log: Logger, a: int, b: int)
    ensures CallerSkip(CallerSkip(log, a), b).sugared.callerSkip == log.sugared.callerSkip + a + b
    ensures CallerSkip(CallerSkip(log, a), b) == CallerSkip(log, a + b)
  {
  }

  /** Naming twice keeps only the last name. */
  lemma NamedReplaces(log: Logger, a: string, b: string)
    requires WellFormed(log) && b != ""
    ensures Named(Named(log, a), b) == Named(log, b)
    ensures Named(log, b).sugared.name == Wrap(b)
  {
  }

  /** Named starts from the pooled base, so a caller skip added before it is dropped. */
  lemma NamedDropsCallerSkip(log: Logger, skip: int, name: string)
    requires WellFormed(log) && name != ""
    ensures Named(CallerSkip(log, skip), name).sugared.callerSkip == log.base.callerSkip
  {
  }
}
