/**
 * The logger's six levels (level.go) and the two lookups into them: from zap's
 * levels and from level names. Both lookups are total and fall back to Trace.
 */
module Levels {

  /** The level enum, in increasing order of severity (iota 0 through 5). */
  datatype Level = Trace | Debug | Info | Warn | Error | Fatal

  /** The level's value as an int8. */
  function Ord(l: Level): (n: int)
    ensures 0 <= n <= 5
  {
    match l
    case Trace => 0
    case Debug => 1
    case Info => 2
    case Warn => 3
    case Error => 4
    case Fatal => 5
  }

  const MinLevel: Level := Trace
  const MaxLevel: Level := Fatal

  /** Levels are told apart by their values, Trace lowest and Fatal highest. */
  lemma LevelOrder(a: Level, b: Level)
    ensures Ord(a) == Ord(b) <==> a == b
    ensures Ord(MinLevel) <= Ord(a) <= Ord(MaxLevel)
    ensures Ord(Trace) < Ord(Debug) < Ord(Info) < Ord(Warn) < Ord(Error) < Ord(Fatal)
  {
  }

  /** zapcore.Level, an int8. */
  newtype ZapLevel = x: int | -128 <= x < 128

  const ZapDebug: ZapLevel := -1
  const ZapInfo: ZapLevel := 0
  const ZapWarn: ZapLevel := 1
  const ZapError: ZapLevel := 2
  const ZapDPanic: ZapLevel := 3
  const ZapPanic: ZapLevel := 4
  const ZapFatal: ZapLevel := 5

  const Zap2Level: map<ZapLevel, Level> :=
    map[ZapDebug := Debug, ZapInfo := Info, ZapWarn := Warn, ZapError := Error,
        ZapDPanic := Fatal, ZapPanic := Fatal, ZapFatal := Fatal]

  const String2Level: map<string, Level> :=
    map["trace" := Trace, "debug" := Debug, "info" := Info, "warn" := Warn, "error" := Error, "fatal" := Fatal]

  /** convertZapLevel: the table's level, or Trace for a zap level outside it. */
  function ConvertZapLevel(lv: ZapLevel): (l: Level)
    ensures ZapDebug <= lv <= ZapError ==> Ord(l) == lv as int + 2
    ensures ZapDPanic <= lv <= ZapFatal ==> l == Fatal
    ensures lv < ZapDebug || ZapFatal < lv ==> l == Trace
  {
    if lv in Zap2Level then Zap2Level[lv] else Trace
  }

  /** convertString: the table's level, or Trace for any other text (the warning it prints is not modelled). */
  function ConvertString(v: string): (l: Level)
    ensures Name(l) == v || (l == Trace && forall k :: Name(k) != v)
  {
    if v in String2Level then String2Level[v]
    else
      assert forall k :: Name(k) in String2Level;
      Trace
  }

  /** The lowercase name of a level. */
  function Name(l: Level): (s: string)
    ensures |s| >= 4
  {
    match l
    case Trace => "trace"
    case Debug => "debug"
    case Info => "info"
    case Warn => "warn"
    case Error => "error"
    case Fatal => "fatal"
  }

  /** The zap levels map to their namesakes, and the three panicking ones to Fatal. */
  lemma ConvertZapTable()
    ensures ConvertZapLevel(ZapDebug) == Debug && ConvertZapLevel(ZapInfo) == Info
    ensures ConvertZapLevel(ZapWarn) == Warn && ConvertZapLevel(ZapError) == Error
    ensures ConvertZapLevel(ZapDPanic) == Fatal && ConvertZapLevel(ZapPanic) == Fatal && ConvertZapLevel(ZapFatal) == Fatal
  {
  }

  /** Any zap level outside -1 through 5 becomes Trace. */
  lemma ConvertZapOutside(lv: ZapLevel)
    requires lv < ZapDebug || ZapFatal < lv
    ensures ConvertZapLevel(lv) == Trace
  {
  }

  /** On the table's domain the conversion never reverses the order of two levels. */
  lemma ConvertZapMonotone(a: ZapLevel, b: ZapLevel)
    requires ZapDebug <= a <= b <= ZapFatal
    ensures Ord(ConvertZapLevel(a)) <= Ord(ConvertZapLevel(b))
  {
  }

  /** Every level's name converts back to the level. */
  lemma ConvertStringOfName(l: Level)
    ensures ConvertString(Name(l)) == l
  {
  }

  /** Exactly the six names are recognised: any other text, upper-case names and the
      empty text included, gives Trace. */
  lemma ConvertStringExact(v: string)
    ensures (exists l :: Name(l) == v) ==> Name(ConvertString(v)) == v
    ensures (forall l :: Name(l) != v) ==> ConvertString(v) == Trace
  {
    if v !in String2Level {
      assert forall l :: Name(l) in String2Level;
    }
  }

  lemma ConvertStringExamples()
    ensures ConvertString("INFO") == Trace && ConvertString("") == Trace && ConvertString("warn") == Warn
  {
    assert "INFO" !in String2Level;
  }
}
