/** The errors of the stand-alone validator (booky.py): ValidationError with
    its two subclasses, and the uncaught Python exceptions the validator can
    still run into. */
module BookyErrors {
  import opened Basics
  import opened Toml

  /** The configuration file every ConfigValidator reads. */
  const ConfigFilename: string := "configure.toml"

  /** ConfigError or PubError, the two subclasses of ValidationError. */
  datatype ErrorClass = ConfigError | PubError

  /** Which `raise` produced the error; each has its own message text. */
  datatype Problem =
    | ConfigFileNotFound | ConfigUnreadable
    | MissingToplevelKeys | ExtraToplevelKeys
    | MissingValidationKeys | ExtraValidationKeys
    | PubDbFileMissing | BadColorValue | BadBlockLimits | BadCoverLimits
    | PubDbFileNotFound | PubDbUnreadable
    | DuplicateKey | BadFieldKeys | BadColor
    | BlockHeightOutside | BlockWidthOutside | CoverHeightOutside | CoverWidthOutside

  /** The `value` an error carries: a list of keys, a file name or key, one
      value, a list of values, or a `(key, value)` pair. */
  datatype ErrValue =
    | Names(names: seq<string>)
    | Name(name: string)
    | Item(item: Value)
    | Items(items: seq<Value>)
    | Keyed(key: string, item: Value)

  /** ValidationError(message, value, filename); `filename` is None when the
      source passes None. */
  datatype ValidationError = ValidationError(cls: ErrorClass, problem: Problem, value: ErrValue, filename: Option<string>)

  /** Python exceptions the validator does not catch: a KeyError when a
      record lacks a field the checks read, a TypeError when a dimension that
      is not a number is compared with an integer limit, an AttributeError
      when a publication entry is not a table (it has no `keys()`). */
  datatype Fault = KeyError(key: string) | TypeError(operand: Value) | AttributeError(entry: string)

  datatype Failure = Raised(error: ValidationError) | Crashed(fault: Fault)

  /** The end of a validation: a value, or the exception that aborted it. */
  datatype Outcome<+T> = Done(value: T) | Fail(failure: Failure)

  /** The message text each `raise` passes, exactly as booky.py writes it:
      the cover-width check repeats the cover-height text. */
  function WordingAsWritten(p: Problem): string {
    match p
    case CoverWidthOutside => "Cover height outside limits:"
    case _ => Wording(p)
  }

  /** The message texts with the cover-width check naming the cover width;
      the rest of the model uses these. */
  function Wording(p: Problem): string {
    match p
    case ConfigFileNotFound => "config file not found"
    case ConfigUnreadable => "Unreadable TOML in config file"
    case MissingToplevelKeys => "Missing toplevel keys"
    case ExtraToplevelKeys => "Extra toplevel keys"
    case MissingValidationKeys => "Missing validation keys"
    case ExtraValidationKeys => "Extra validation keys"
    case PubDbFileMissing => "Pub db file doesn't exist:"
    case BadColorValue => "bad color value"
    case BadBlockLimits => "Bad block limits"
    case BadCoverLimits => "Bad cover limits"
    case PubDbFileNotFound => "Publication db file not found"
    case PubDbUnreadable => "Unreadable TOML in Pub db file"
    case DuplicateKey => "Duplicate key"
    case BadFieldKeys => "Bad or missing pub field key in"
    case BadColor => "Bad color"
    case BlockHeightOutside => "Block height outside limits:"
    case BlockWidthOutside => "Block width outside limits:"
    case CoverHeightOutside => "Cover height outside limits:"
    case CoverWidthOutside => "Cover width outside limits:"
  }

  /** The checks a publication record goes through. */
  predicate IsRecordProblem(p: Problem) {
    p in {DuplicateKey, BadFieldKeys, BadColor, BlockHeightOutside, BlockWidthOutside,
          CoverHeightOutside, CoverWidthOutside}
  }

  /** As written, a cover-width failure cannot be told from a cover-height
      failure by its message. */
  lemma AsWrittenCoverMessagesCollide()
    ensures WordingAsWritten(CoverHeightOutside) == WordingAsWritten(CoverWidthOutside)
    ensures CoverHeightOutside != CoverWidthOutside
  {
  }

  /** With the corrected texts every record check has a message of its own. */
  lemma RecordMessagesDistinct(p: Problem, q: Problem)
    requires IsRecordProblem(p) && IsRecordProblem(q) && p != q
    ensures Wording(p) != Wording(q)
  {
  }

  /** Python truthiness of the `filename` argument: None and '' are false. */
  predicate Truthy(filename: Option<string>) {
    filename.Some? && filename.value != ""
  }

  /** The suffix naming the file. */
  function InFile(filename: string): string {
    " in file '" + filename + "'"
  }

  /** user_message: the message, the value in quotes, and ` in file '...'`
      when the filename is truthy. How a value is printed (Python's str of a
      list or tuple) is given by `show`. */
  function UserMessage(e: ValidationError, show: ErrValue -> string): (r: string)
    ensures |Wording(e.problem)| <= |r| && r[..|Wording(e.problem)|] == Wording(e.problem)
    ensures Truthy(e.filename) ==>
      var suffix := InFile(e.filename.value);
      |suffix| <= |r| && r[|r| - |suffix|..] == suffix
  {
    var head := Wording(e.problem) + " '" + show(e.value) + "'";
    if Truthy(e.filename) then head + InFile(e.filename.value) else head
  }

  /** A falsy filename leaves no trace in the message, and a truthy one
      adds exactly the ` in file '...'` suffix. */
  lemma UserMessageFileSuffix(e: ValidationError, show: ErrValue -> string)
    ensures !Truthy(e.filename) ==> UserMessage(e, show) == UserMessage(e.(filename := None), show)
    ensures Truthy(e.filename) ==>
      UserMessage(e, show) == UserMessage(e.(filename := None), show) + InFile(e.filename.value)
  {
  }

  /** `str(e)`: the class name, three dots, and the user message. */
  function Describe(e: ValidationError, show: ErrValue -> string): (r: string)
    ensures |UserMessage(e, show)| < |r| && r[|r| - |UserMessage(e, show)|..] == UserMessage(e, show)
  {
    (if e.cls == ConfigError then "ConfigError... " else "PubError... ") + UserMessage(e, show)
  }

  /** The text `str()` gives tells the two classes apart and keeps the user
      message: equal texts mean the same class and the same message. */
  lemma DescribeDetermines(e1: ValidationError, e2: ValidationError, show: ErrValue -> string)
    requires Describe(e1, show) == Describe(e2, show)
    ensures e1.cls == e2.cls
    ensures UserMessage(e1, show) == UserMessage(e2, show)
  {
    assert Describe(e1, show)[0] == (if e1.cls == ConfigError then 'C' else 'P');
    assert Describe(e2, show)[0] == (if e2.cls == ConfigError then 'C' else 'P');
  }
}
