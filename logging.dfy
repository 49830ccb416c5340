/** The parts of Python's `logging` the formatters touch: the record they
    colour, the level numbers, and the base `Formatter.format` render, which
    is left abstract. */
module Logging {
  import opened Wrappers

  const NOTSET: int := 0
  const DEBUG: int := 10
  const INFO: int := 20
  const WARNING: int := 30
  const ERROR: int := 40
  const CRITICAL: int := 50

  /** The attributes of a log record that the formatters read or write. The
      `original*` attributes and `consumed` are added by `_init_record`;
      `None` stands for an attribute the record does not have. */
  datatype RecordState = RecordState(
    msg: string,
    args: seq<string>,
    levelname: string,
    levelno: int,
    originalMsg: Option<string>,
    originalArgs: Option<seq<string>>,
    originalLvl: Option<string>,
    consumed: Option<bool>)

  /** A record as it comes out of a logger: none of the added attributes. */
  predicate Untouched(st: RecordState) {
    st.originalMsg.None? && st.originalArgs.None? && st.originalLvl.None? && st.consumed.None?
  }

  /** The base `Formatter.format`: a function of the template and the record
      that this model does not look into. */
  type Render = (string, RecordState) -> string

  /** An error the source lets escape: a colour-map lookup of a level that is
      not a key (`KeyError`). */
  datatype Result<T> = Ok(value: T) | MissingKey(key: int)

  class LogRecord {
    var msg: string
    var args: seq<string>
    var levelname: string
    var levelno: int
    var originalMsg: Option<string>
    var originalArgs: Option<seq<string>>
    var originalLvl: Option<string>
    var consumed: Option<bool>

    function State(): RecordState
      reads this
    {
      RecordState(msg, args, levelname, levelno, originalMsg, originalArgs, originalLvl, consumed)
    }

    constructor (msg: string, args: seq<string>, levelname: string, levelno: int)
      ensures State() == RecordState(msg, args, levelname, levelno, None, None, None, None)
    {
      this.msg := msg;
      this.args := args;
      this.levelname := levelname;
      this.levelno := levelno;
      originalMsg := None;
      originalArgs := None;
      originalLvl := None;
      consumed := None;
    }
  }
}
