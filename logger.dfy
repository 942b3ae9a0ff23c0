// kernel/src/logger.rs: the global log level and the `log!` filter.

module Logger {

  datatype LogLevel = Error | Warn | Info | Debug

  /** The enum discriminants: Error = 3, Warn = 4, Info = 6, Debug = 7. */
  function Code(l: LogLevel): (c: nat)
    ensures 3 <= c <= 7
    ensures (c == 3 <==> l == Error) && (c == 7 <==> l == Debug)
  {
    match l
    case Error => 3
    case Warn => 4
    case Info => 6
    case Debug => 7
  }

  /** `log!(c, ...)` prints exactly when `c as usize <= LOG_LEVEL as usize`. */
  predicate Enabled(message: LogLevel, current: LogLevel)
  {
    Code(message) <= Code(current)
  }

  /** The codes are ordered Error < Warn < Info < Debug. */
  lemma CodesOrdered()
    ensures Code(Error) < Code(Warn) < Code(Info) < Code(Debug)
  {
  }

  /** With the initial level Warn, only errors and warnings are printed. */
  lemma AtWarnOnlyErrorsAndWarnings(message: LogLevel)
    ensures Enabled(message, Warn) <==> message == Error || message == Warn
  {
  }

  /** Raising the level never hides a message that was printed before. */
  lemma EnabledMonotone(message: LogLevel, lower: LogLevel, higher: LogLevel)
    requires Code(lower) <= Code(higher)
    ensures Enabled(message, lower) ==> Enabled(message, higher)
  {
  }

  /** The global `LOG_LEVEL`. */
  class LevelFilter {
    var level: LogLevel

    constructor ()
      ensures level == Warn
    {
      level := Warn;
    }

    /** `set_log_level`: replaces the level and nothing else. */
    method SetLogLevel(l: LogLevel)
      modifies this
      ensures level == l
    {
      level := l;
    }

    /** The filter of `log!` against the current level. */
    function ShouldPrint(message: LogLevel): (b: bool)
      reads this
      ensures b <==> Code(message) <= Code(level)
      ensures message == Error ==> b
    {
      Enabled(message, level)
    }
  }
}
