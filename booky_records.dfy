/** The checks PubValidator (booky.py) makes on one publication record, and
    the Pub it builds from an accepted one. */
module BookyRecords {
  import opened Basics
  import opened Toml
  import opened BookyChecks
  import opened BookyErrors
  import opened BookyConfigValidator

  const TitleField: string := "title"
  const BlockHeightField: string := "block-height"
  const BlockWidthField: string := "block-width"
  const CoverHeightField: string := "cover-height"
  const CoverWidthField: string := "cover-width"
  const ColorField: string := "color"

  /** A publication record: the table under one key of a database file. */
  type Record = map<string, Value>

  /** The value under a key of a database file: a table, or any other TOML
      value (which has no `keys()`). */
  datatype Entry = Table(fields: Record) | NotTable(item: Value)

  /** A parsed database file: its keys and entries in document order. */
  type Catalog = seq<(string, Entry)>

  /** Pub(data): the six fields, copied from the record. */
  datatype Pub = Pub(title: Value, blockHeight: Value, blockWidth: Value,
                     coverHeight: Value, coverWidth: Value, color: Value)

  function PubFailure(p: Problem, v: ErrValue, filename: Option<string>): Failure {
    Raised(ValidationError(PubError, p, v, filename))
  }

  /** Pub.__init__: reads title, block-height, block-width, cover-height,
      cover-width and color in that order; the first one missing raises a
      KeyError. */
  function MakePub(rec: Record): (r: Outcome<Pub>)
    ensures r.Done? <==> TitleField in rec && BlockHeightField in rec && BlockWidthField in rec
                         && CoverHeightField in rec && CoverWidthField in rec && ColorField in rec
    ensures r.Done? ==> r.value == Pub(rec[TitleField], rec[BlockHeightField], rec[BlockWidthField],
                                       rec[CoverHeightField], rec[CoverWidthField], rec[ColorField])
    ensures r.Fail? ==> r.failure.Crashed? && r.failure.fault.KeyError? && r.failure.fault.key !in rec
  {
    if TitleField !in rec then Fail(Crashed(KeyError(TitleField)))
    else if BlockHeightField !in rec then Fail(Crashed(KeyError(BlockHeightField)))
    else if BlockWidthField !in rec then Fail(Crashed(KeyError(BlockWidthField)))
    else if CoverHeightField !in rec then Fail(Crashed(KeyError(CoverHeightField)))
    else if CoverWidthField !in rec then Fail(Crashed(KeyError(CoverWidthField)))
    else if ColorField !in rec then Fail(Crashed(KeyError(ColorField)))
    else Done(Pub(rec[TitleField], rec[BlockHeightField], rec[BlockWidthField],
                  rec[CoverHeightField], rec[CoverWidthField], rec[ColorField]))
  }

  /** `is_within_limits(value[field], limits)` for a record, where the
      limits passed check_limits: the field must be present and a number. */
  predicate DimensionOk(rec: Record, field: string, limits: seq<Value>)
    requires CheckLimits(limits)
  {
    && field in rec
    && IsInt(rec[field])
    && IsWithinLimits(AsInt(rec[field]), [AsInt(limits[0]), AsInt(limits[1])])
  }

  /** The exception a failed dimension check raises: a KeyError when the
      field is absent, a TypeError when it is not a number, otherwise
      `problem` with `(key, value)`. */
  function DimensionFailure(rec: Record, field: string, problem: Problem, key: string, filename: string): Failure {
    if field !in rec then Crashed(KeyError(field))
    else if !IsInt(rec[field]) then Crashed(TypeError(rec[field]))
    else PubFailure(problem, Keyed(key, rec[field]), Some(filename))
  }

  /** The value a record's PubError carries: the key for a duplicate or a
      bad set of field keys, otherwise `(key, offending value)`. */
  predicate RaisedValue(p: Problem, v: ErrValue, key: string, rec: Record) {
    match p
    case DuplicateKey => v == Name(key)
    case BadFieldKeys => v == Name(key)
    case BadColor => ColorField in rec && v == Keyed(key, rec[ColorField])
    case BlockHeightOutside => BlockHeightField in rec && v == Keyed(key, rec[BlockHeightField])
    case BlockWidthOutside => BlockWidthField in rec && v == Keyed(key, rec[BlockWidthField])
    case CoverHeightOutside => CoverHeightField in rec && v == Keyed(key, rec[CoverHeightField])
    case CoverWidthOutside => CoverWidthField in rec && v == Keyed(key, rec[CoverWidthField])
    case _ => false
  }

  /** The checks on the fields of a record not seen before, in the order
      the loop body runs them: field keys, colour, the four dimensions. */
  function CheckFields(s: ValidatedSettings, filename: string, key: string, rec: Record): (r: Option<Failure>)
    ensures r == None <==>
      && Elements(s.pubFields) == rec.Keys
      && ColorField in rec && rec[ColorField] in s.validColors
      && DimensionOk(rec, BlockHeightField, s.blockLimits) && DimensionOk(rec, BlockWidthField, s.blockLimits)
      && DimensionOk(rec, CoverHeightField, s.coverLimits) && DimensionOk(rec, CoverWidthField, s.coverLimits)
    ensures r.Some? && r.value.Raised? ==>
      && r.value.error.cls == PubError && r.value.error.filename == Some(filename)
      && r.value.error.problem != DuplicateKey
      && RaisedValue(r.value.error.problem, r.value.error.value, key, rec)
  {
    if Elements(s.pubFields) != rec.Keys then Some(PubFailure(BadFieldKeys, Name(key), Some(filename)))
    else if ColorField !in rec then Some(Crashed(KeyError(ColorField)))
    else if rec[ColorField] !in s.validColors then
      Some(PubFailure(BadColor, Keyed(key, rec[ColorField]), Some(filename)))
    else if !DimensionOk(rec, BlockHeightField, s.blockLimits) then
      Some(DimensionFailure(rec, BlockHeightField, BlockHeightOutside, key, filename))
    else if !DimensionOk(rec, BlockWidthField, s.blockLimits) then
      Some(DimensionFailure(rec, BlockWidthField, BlockWidthOutside, key, filename))
    else if !DimensionOk(rec, CoverHeightField, s.coverLimits) then
      Some(DimensionFailure(rec, CoverHeightField, CoverHeightOutside, key, filename))
    else if !DimensionOk(rec, CoverWidthField, s.coverLimits) then
      Some(DimensionFailure(rec, CoverWidthField, CoverWidthOutside, key, filename))
    else None
  }

  /** The checks on one record of `filename` under `key`, given the keys
      accepted so far, in the order the loop body runs them; on success the
      Pub it builds. */
  function CheckRecord(s: ValidatedSettings, accepted: seq<string>, filename: string, key: string, entry: Entry): (r: Outcome<Pub>)
    ensures r.Fail? && r.failure.Raised? ==>
      r.failure.error.cls == PubError && r.failure.error.filename == Some(filename)
    ensures r.Fail? && r.failure.Raised? && r.failure.error.problem == DuplicateKey <==> key in accepted
    ensures key in accepted ==> r == Fail(PubFailure(DuplicateKey, Name(key), Some(filename)))
    ensures r.Fail? && r.failure.Raised? ==>
      RaisedValue(r.failure.error.problem, r.failure.error.value, key,
                  if entry.Table? then entry.fields else map[])
    ensures r.Done? ==> entry.Table? && MakePub(entry.fields) == r
  {
    if key in accepted then Fail(PubFailure(DuplicateKey, Name(key), Some(filename)))
    else if entry.NotTable? then Fail(Crashed(AttributeError(key)))
    else
      match CheckFields(s, filename, key, entry.fields)
      case Some(f) => Fail(f)
      case None => MakePub(entry.fields)
  }

  /** The steps a record goes through; `Builds` is the construction of the
      Pub, which can only fail on a missing title. */
  datatype RecordStep =
    | Fresh | FieldKeys | ColorValid | BlockHeightOk | BlockWidthOk | CoverHeightOk | CoverWidthOk | Builds

  function StepRank(st: RecordStep): nat {
    match st
    case Fresh => 0
    case FieldKeys => 1
    case ColorValid => 2
    case BlockHeightOk => 3
    case BlockWidthOk => 4
    case CoverHeightOk => 5
    case CoverWidthOk => 6
    case Builds => 7
  }

  /** Whether one step lets the record through, stated on its own. */
  predicate StepPasses(s: ValidatedSettings, accepted: seq<string>, key: string, entry: Entry, st: RecordStep)
  {
    match st
    case Fresh => key !in accepted
    case FieldKeys => entry.Table? && Elements(s.pubFields) == entry.fields.Keys
    case ColorValid => entry.Table? && ColorField in entry.fields && entry.fields[ColorField] in s.validColors
    case BlockHeightOk => entry.Table? && DimensionOk(entry.fields, BlockHeightField, s.blockLimits)
    case BlockWidthOk => entry.Table? && DimensionOk(entry.fields, BlockWidthField, s.blockLimits)
    case CoverHeightOk => entry.Table? && DimensionOk(entry.fields, CoverHeightField, s.coverLimits)
    case CoverWidthOk => entry.Table? && DimensionOk(entry.fields, CoverWidthField, s.coverLimits)
    case Builds => entry.Table? && TitleField in entry.fields
  }

  /** The PubError a failing step raises, for the steps that raise one. */
  function StepProblem(st: RecordStep): Problem
    requires st != Builds
  {
    match st
    case Fresh => DuplicateKey
    case FieldKeys => BadFieldKeys
    case ColorValid => BadColor
    case BlockHeightOk => BlockHeightOutside
    case BlockWidthOk => BlockWidthOutside
    case CoverHeightOk => CoverHeightOutside
    case CoverWidthOk => CoverWidthOutside
  }

  /** The first step, in order, that stops the record. */
  function FirstFailingStep(s: ValidatedSettings, accepted: seq<string>, key: string, entry: Entry): Option<RecordStep>
  {
    if !StepPasses(s, accepted, key, entry, Fresh) then Some(Fresh)
    else if !StepPasses(s, accepted, key, entry, FieldKeys) then Some(FieldKeys)
    else if !StepPasses(s, accepted, key, entry, ColorValid) then Some(ColorValid)
    else if !StepPasses(s, accepted, key, entry, BlockHeightOk) then Some(BlockHeightOk)
    else if !StepPasses(s, accepted, key, entry, BlockWidthOk) then Some(BlockWidthOk)
    else if !StepPasses(s, accepted, key, entry, CoverHeightOk) then Some(CoverHeightOk)
    else if !StepPasses(s, accepted, key, entry, CoverWidthOk) then Some(CoverWidthOk)
    else if !StepPasses(s, accepted, key, entry, Builds) then Some(Builds)
    else None
  }

  /** FirstFailingStep finds a failing step before which every step passes,
      and finds none exactly when all pass. */
  lemma FirstFailingStepIsFirst(s: ValidatedSettings, accepted: seq<string>, key: string, entry: Entry)
    ensures FirstFailingStep(s, accepted, key, entry) == None <==>
      forall st :: StepPasses(s, accepted, key, entry, st)
    ensures FirstFailingStep(s, accepted, key, entry).Some? ==>
      var st := FirstFailingStep(s, accepted, key, entry).value;
      && !StepPasses(s, accepted, key, entry, st)
      && forall earlier :: StepRank(earlier) < StepRank(st) ==> StepPasses(s, accepted, key, entry, earlier)
  {
  }

  /** Fail-fast for one record: it is accepted exactly when every step
      passes; otherwise the first failing step decides, raising its own
      PubError unless Python itself raised first (a non-table entry, a
      missing field, a dimension that is not a number). */
  lemma CheckRecordFailFast(s: ValidatedSettings, accepted: seq<string>, filename: string, key: string, entry: Entry)
    ensures var r := CheckRecord(s, accepted, filename, key, entry);
      && (r.Done? <==> FirstFailingStep(s, accepted, key, entry) == None)
      && (r.Fail? && r.failure.Raised? ==>
            var st := FirstFailingStep(s, accepted, key, entry).value;
            st != Builds && r.failure.error.problem == StepProblem(st))
  {
  }

  /** A Pub that meets the configured colour and limits. */
  predicate PubSound(s: ValidatedSettings, p: Pub) {
    && p.color in s.validColors
    && IsInt(p.blockHeight) && IsWithinLimits(AsInt(p.blockHeight), [AsInt(s.blockLimits[0]), AsInt(s.blockLimits[1])])
    && IsInt(p.blockWidth) && IsWithinLimits(AsInt(p.blockWidth), [AsInt(s.blockLimits[0]), AsInt(s.blockLimits[1])])
    && IsInt(p.coverHeight) && IsWithinLimits(AsInt(p.coverHeight), [AsInt(s.coverLimits[0]), AsInt(s.coverLimits[1])])
    && IsInt(p.coverWidth) && IsWithinLimits(AsInt(p.coverWidth), [AsInt(s.coverLimits[0]), AsInt(s.coverLimits[1])])
  }

  /** Every Pub held meets the configuration. */
  predicate AllSound(s: ValidatedSettings, pubs: map<string, Pub>) {
    forall k :: k in pubs ==> PubSound(s, pubs[k])
  }

  /** An accepted record yields a Pub that meets the configuration. */
  lemma AcceptedPubIsSound(s: ValidatedSettings, accepted: seq<string>, filename: string, key: string, entry: Entry)
    requires CheckRecord(s, accepted, filename, key, entry).Done?
    ensures PubSound(s, CheckRecord(s, accepted, filename, key, entry).value)
  {
  }
}
