/** The values a TOML reader hands to the validators, as far as the
    validators look at them. */
module Toml {

  /** A parsed TOML value. `Bool` is kept apart from `Int` because Python's
      `isinstance(v, int)` holds of booleans too (bool is a subclass of int,
      `True == 1`). `Other` stands for the kinds the validators never look
      inside: arrays, tables and dates; comparing one of them with an integer
      raises a TypeError. */
  datatype Value = Int(i: int) | Bool(b: bool) | Str(s: string) | Other

  /** Python's `isinstance(v, int)`. */
  predicate IsInt(v: Value) {
    v.Int? || v.Bool?
  }

  /** The integer a value compares as (`True` is 1, `False` is 0). */
  function AsInt(v: Value): int
    requires IsInt(v)
  {
    if v.Int? then v.i else if v.b then 1 else 0
  }

  /** What opening and parsing one file gives: FileNotFoundError,
      TOMLDecodeError, or the parsed document. */
  datatype Read<+T> = NotFound | Undecodable | Parsed(content: T)
}
