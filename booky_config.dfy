/** ConfigValidator of the stand-alone validator (booky.py): the fail-fast
    check of the configuration document. */
module BookyConfigValidator {
  import opened Basics
  import opened Toml
  import opened BookyChecks
  import opened BookyErrors

  /** The keys the top level of the configuration must have, no more. */
  const ToplevelKeys: seq<string> := ["pub-db-filenames", "pub-fields", "validation"]

  /** The keys the `validation` table must have, no more. */
  const ValidationKeys: seq<string> := ["block-limits", "cover-limits", "colors"]

  /** The `validation` table: its keys in document order, and the values the
      validator reads under `block-limits`, `cover-limits` and `colors` (only
      read once the key check has passed, so only meaningful then). */
  datatype ValidationTable = ValidationTable(
    keys: seq<string>,
    blockLimits: seq<Value>,
    coverLimits: seq<Value>,
    colors: seq<Value>)

  /** The parsed configuration document: its top-level keys in document
      order and the values under `pub-db-filenames`, `pub-fields` and
      `validation`. */
  datatype ConfigDoc = ConfigDoc(
    keys: seq<string>,
    pubDbFilenames: seq<string>,
    pubFields: seq<string>,
    validation: ValidationTable)

  /** The five attributes a validated ConfigValidator holds. */
  datatype Settings = Settings(
    pubDbFilenames: seq<string>,
    pubFields: seq<string>,
    validColors: seq<Value>,
    blockLimits: seq<Value>,
    coverLimits: seq<Value>)

  /** The document's values, copied unchanged into the attributes. */
  function SettingsOf(doc: ConfigDoc): Settings {
    Settings(doc.pubDbFilenames, doc.pubFields, doc.validation.colors,
             doc.validation.blockLimits, doc.validation.coverLimits)
  }

  /** What every successful validation establishes about the attributes. */
  predicate ValidSettings(s: Settings) {
    && (forall c :: c in s.validColors ==> CheckColor(c))
    && CheckLimits(s.blockLimits)
    && CheckLimits(s.coverLimits)
  }

  /** The attributes a validator holds once every check has passed. */
  type ValidatedSettings = s: Settings | ValidSettings(s)
    witness Settings([], [], [], [Int(0), Int(1)], [Int(0), Int(1)])

  /** The position of the first listed publication file that does not exist,
      or the length of the list when all exist. */
  function FirstMissingFile(files: seq<string>, existing: set<string>): (i: nat)
    ensures i <= |files|
    ensures forall j :: 0 <= j < i ==> files[j] in existing
    ensures i < |files| ==> files[i] !in existing
  {
    if files == [] || files[0] !in existing then 0
    else 1 + FirstMissingFile(files[1..], existing)
  }

  /** The position of the first colour that is not a three-character string,
      or the length of the list when all are. */
  function FirstBadColor(colors: seq<Value>): (i: nat)
    ensures i <= |colors|
    ensures forall j :: 0 <= j < i ==> CheckColor(colors[j])
    ensures i < |colors| ==> !CheckColor(colors[i])
  {
    if colors == [] || !CheckColor(colors[0]) then 0
    else 1 + FirstBadColor(colors[1..])
  }

  function ConfigFailure(p: Problem, v: ErrValue, filename: Option<string>): Failure {
    Raised(ValidationError(ConfigError, p, v, filename))
  }

  /** The key lists a document is checked against. The checks below are
      stated for any such lists; ConfigValidator uses `Schema`. */
  datatype KeySchema = KeySchema(toplevel: seq<string>, validation: seq<string>)

  const Schema: KeySchema := KeySchema(ToplevelKeys, ValidationKeys)

  /** ConfigValidator.__init__ as a function of the key lists, the parsed
      document and the set of files that exist: each check in turn, the
      first failure raising a ConfigError, and on success the document's
      values. */
  function CheckDocument(schema: KeySchema, src: Read<ConfigDoc>, existing: set<string>): (r: Outcome<Settings>)
    ensures r.Fail? ==> r.failure.Raised? && r.failure.error.cls == ConfigError
    ensures r.Done? ==> src.Parsed? && r.value == SettingsOf(src.content) && ValidSettings(r.value)
  {
    match src
    case NotFound => Fail(ConfigFailure(ConfigFileNotFound, Name(ConfigFilename), None))
    case Undecodable => Fail(ConfigFailure(ConfigUnreadable, Name(ConfigFilename), None))
    case Parsed(doc) =>
      var missing := MissingKeys(schema.toplevel, doc.keys);
      var extra := ExtraKeys(schema.toplevel, doc.keys);
      var vMissing := MissingKeys(schema.validation, doc.validation.keys);
      var vExtra := ExtraKeys(schema.validation, doc.validation.keys);
      var f := FirstMissingFile(doc.pubDbFilenames, existing);
      var c := FirstBadColor(doc.validation.colors);
      if |missing| > 0 then Fail(ConfigFailure(MissingToplevelKeys, Names(missing), Some(ConfigFilename)))
      else if |extra| > 0 then Fail(ConfigFailure(ExtraToplevelKeys, Names(extra), Some(ConfigFilename)))
      else if |vMissing| > 0 then Fail(ConfigFailure(MissingValidationKeys, Names(vMissing), Some(ConfigFilename)))
      else if |vExtra| > 0 then Fail(ConfigFailure(ExtraValidationKeys, Names(vExtra), Some(ConfigFilename)))
      else if f < |doc.pubDbFilenames| then
        Fail(ConfigFailure(PubDbFileMissing, Name(doc.pubDbFilenames[f]), None))
      else if c < |doc.validation.colors| then
        Fail(ConfigFailure(BadColorValue, Item(doc.validation.colors[c]), Some(ConfigFilename)))
      else if !CheckLimits(doc.validation.blockLimits) then
        Fail(ConfigFailure(BadBlockLimits, Items(doc.validation.blockLimits), Some(ConfigFilename)))
      else if !CheckLimits(doc.validation.coverLimits) then
        Fail(ConfigFailure(BadCoverLimits, Items(doc.validation.coverLimits), Some(ConfigFilename)))
      else Done(SettingsOf(doc))
  }

  /** The check ConfigValidator makes, against its own key lists. */
  function ConfigCheck(src: Read<ConfigDoc>, existing: set<string>): (r: Outcome<Settings>)
    ensures r.Fail? ==> r.failure.Raised? && r.failure.error.cls == ConfigError
    ensures !src.Parsed? ==>
      && r.Fail? && r.failure.error.value == Name(ConfigFilename) && r.failure.error.filename == None
      && r.failure.error.problem == (if src.NotFound? then ConfigFileNotFound else ConfigUnreadable)
    ensures r.Done? ==> src.Parsed? && r.value == SettingsOf(src.content) && ValidSettings(r.value)
  {
    CheckDocument(Schema, src, existing)
  }

  /** The eight checks on a parsed document. */
  datatype Stage =
    | ToplevelMissing | ToplevelExtra | ValidationMissing | ValidationExtra
    | FilesExist | ColorsWellFormed | BlockLimitsOrdered | CoverLimitsOrdered

  /** The position of a check in the order the checks run. */
  function Rank(st: Stage): nat {
    match st
    case ToplevelMissing => 0
    case ToplevelExtra => 1
    case ValidationMissing => 2
    case ValidationExtra => 3
    case FilesExist => 4
    case ColorsWellFormed => 5
    case BlockLimitsOrdered => 6
    case CoverLimitsOrdered => 7
  }

  /** Whether one check passes, stated without reference to the others. */
  predicate Passes(schema: KeySchema, doc: ConfigDoc, existing: set<string>, st: Stage) {
    match st
    case ToplevelMissing => forall k :: k in schema.toplevel ==> k in doc.keys
    case ToplevelExtra => forall k :: k in doc.keys ==> k in schema.toplevel
    case ValidationMissing => forall k :: k in schema.validation ==> k in doc.validation.keys
    case ValidationExtra => forall k :: k in doc.validation.keys ==> k in schema.validation
    case FilesExist => forall f :: f in doc.pubDbFilenames ==> f in existing
    case ColorsWellFormed => forall c :: c in doc.validation.colors ==> CheckColor(c)
    case BlockLimitsOrdered => CheckLimits(doc.validation.blockLimits)
    case CoverLimitsOrdered => CheckLimits(doc.validation.coverLimits)
  }

  /** The problem a failing check reports. */
  function ProblemOf(st: Stage): Problem {
    match st
    case ToplevelMissing => MissingToplevelKeys
    case ToplevelExtra => ExtraToplevelKeys
    case ValidationMissing => MissingValidationKeys
    case ValidationExtra => ExtraValidationKeys
    case FilesExist => PubDbFileMissing
    case ColorsWellFormed => BadColorValue
    case BlockLimitsOrdered => BadBlockLimits
    case CoverLimitsOrdered => BadCoverLimits
  }

  /** The error a failing check raises: the offending keys, the first
      missing file, the first bad colour or the limits list, with the
      configuration file named except for a missing publication file. */
  function StageError(schema: KeySchema, doc: ConfigDoc, existing: set<string>, st: Stage): ValidationError {
    match st
    case ToplevelMissing =>
      ValidationError(ConfigError, MissingToplevelKeys, Names(MissingKeys(schema.toplevel, doc.keys)), Some(ConfigFilename))
    case ToplevelExtra =>
      ValidationError(ConfigError, ExtraToplevelKeys, Names(ExtraKeys(schema.toplevel, doc.keys)), Some(ConfigFilename))
    case ValidationMissing =>
      ValidationError(ConfigError, MissingValidationKeys,
                      Names(MissingKeys(schema.validation, doc.validation.keys)), Some(ConfigFilename))
    case ValidationExtra =>
      ValidationError(ConfigError, ExtraValidationKeys,
                      Names(ExtraKeys(schema.validation, doc.validation.keys)), Some(ConfigFilename))
    case FilesExist =>
      var f := FirstMissingFile(doc.pubDbFilenames, existing);
      ValidationError(ConfigError, PubDbFileMissing,
                      Name(if f < |doc.pubDbFilenames| then doc.pubDbFilenames[f] else ""), None)
    case ColorsWellFormed =>
      var c := FirstBadColor(doc.validation.colors);
      ValidationError(ConfigError, BadColorValue,
                      Item(if c < |doc.validation.colors| then doc.validation.colors[c] else Str("")),
                      Some(ConfigFilename))
    case BlockLimitsOrdered =>
      ValidationError(ConfigError, BadBlockLimits, Items(doc.validation.blockLimits), Some(ConfigFilename))
    case CoverLimitsOrdered =>
      ValidationError(ConfigError, BadCoverLimits, Items(doc.validation.coverLimits), Some(ConfigFilename))
  }

  /** The first check, in the order they run, that fails. */
  function FirstFailing(schema: KeySchema, doc: ConfigDoc, existing: set<string>): Option<Stage> {
    if !Passes(schema, doc, existing, ToplevelMissing) then Some(ToplevelMissing)
    else if !Passes(schema, doc, existing, ToplevelExtra) then Some(ToplevelExtra)
    else if !Passes(schema, doc, existing, ValidationMissing) then Some(ValidationMissing)
    else if !Passes(schema, doc, existing, ValidationExtra) then Some(ValidationExtra)
    else if !Passes(schema, doc, existing, FilesExist) then Some(FilesExist)
    else if !Passes(schema, doc, existing, ColorsWellFormed) then Some(ColorsWellFormed)
    else if !Passes(schema, doc, existing, BlockLimitsOrdered) then Some(BlockLimitsOrdered)
    else if !Passes(schema, doc, existing, CoverLimitsOrdered) then Some(CoverLimitsOrdered)
    else None
  }

  /** FirstFailing finds a failing check before which every check passes,
      and finds none exactly when all pass. */
  lemma FirstFailingIsFirst(schema: KeySchema, doc: ConfigDoc, existing: set<string>)
    ensures FirstFailing(schema, doc, existing) == None <==> forall st :: Passes(schema, doc, existing, st)
    ensures FirstFailing(schema, doc, existing).Some? ==>
      var st := FirstFailing(schema, doc, existing).value;
      && !Passes(schema, doc, existing, st)
      && forall earlier :: Rank(earlier) < Rank(st) ==> Passes(schema, doc, existing, earlier)
  {
  }

  /** Fail-fast: a parsed document is accepted exactly when every check
      passes, and otherwise the error reported is that of the first check in
      the order that fails. */
  lemma ConfigCheckFailFast(doc: ConfigDoc, existing: set<string>)
    ensures ConfigCheck(Parsed(doc), existing).Done? <==> FirstFailing(Schema, doc, existing) == None
    ensures ConfigCheck(Parsed(doc), existing).Fail? ==>
      && ConfigCheck(Parsed(doc), existing).failure.Raised?
      && ConfigCheck(Parsed(doc), existing).failure.error.problem == ProblemOf(FirstFailing(Schema, doc, existing).value)
      && ConfigCheck(Parsed(doc), existing).failure.error
           == StageError(Schema, doc, existing, FirstFailing(Schema, doc, existing).value)
  {
    GuardsAreChecks(Schema, doc, existing);
    ConfigCheckFollowsGuards(Schema, doc, existing);
  }

  /** Whether the test ConfigCheck makes for a check lets the document through. */
  predicate GuardPasses(schema: KeySchema, doc: ConfigDoc, existing: set<string>, st: Stage) {
    match st
    case ToplevelMissing => |MissingKeys(schema.toplevel, doc.keys)| == 0
    case ToplevelExtra => |ExtraKeys(schema.toplevel, doc.keys)| == 0
    case ValidationMissing => |MissingKeys(schema.validation, doc.validation.keys)| == 0
    case ValidationExtra => |ExtraKeys(schema.validation, doc.validation.keys)| == 0
    case FilesExist => FirstMissingFile(doc.pubDbFilenames, existing) == |doc.pubDbFilenames|
    case ColorsWellFormed => FirstBadColor(doc.validation.colors) == |doc.validation.colors|
    case BlockLimitsOrdered => CheckLimits(doc.validation.blockLimits)
    case CoverLimitsOrdered => CheckLimits(doc.validation.coverLimits)
  }

  /** The first check that fails, found through the tests ConfigCheck makes. */
  function FirstFailingGuard(schema: KeySchema, doc: ConfigDoc, existing: set<string>): Option<Stage> {
    if !GuardPasses(schema, doc, existing, ToplevelMissing) then Some(ToplevelMissing)
    else if !GuardPasses(schema, doc, existing, ToplevelExtra) then Some(ToplevelExtra)
    else if !GuardPasses(schema, doc, existing, ValidationMissing) then Some(ValidationMissing)
    else if !GuardPasses(schema, doc, existing, ValidationExtra) then Some(ValidationExtra)
    else if !GuardPasses(schema, doc, existing, FilesExist) then Some(FilesExist)
    else if !GuardPasses(schema, doc, existing, ColorsWellFormed) then Some(ColorsWellFormed)
    else if !GuardPasses(schema, doc, existing, BlockLimitsOrdered) then Some(BlockLimitsOrdered)
    else if !GuardPasses(schema, doc, existing, CoverLimitsOrdered) then Some(CoverLimitsOrdered)
    else None
  }

  /** The test ConfigCheck makes for a check decides that check. */
  lemma GuardDecides(schema: KeySchema, doc: ConfigDoc, existing: set<string>, st: Stage)
    ensures GuardPasses(schema, doc, existing, st) == Passes(schema, doc, existing, st)
  {
    match st
    case ToplevelMissing => KeyStagePasses(schema.toplevel, doc.keys);
    case ToplevelExtra => KeyStagePasses(schema.toplevel, doc.keys);
    case ValidationMissing => KeyStagePasses(schema.validation, doc.validation.keys);
    case ValidationExtra => KeyStagePasses(schema.validation, doc.validation.keys);
    case FilesExist => FileStagePasses(doc.pubDbFilenames, existing);
    case ColorsWellFormed => ColorStagePasses(doc.validation.colors);
    case BlockLimitsOrdered =>
    case CoverLimitsOrdered =>
  }

  /** So the tests find the same first failing check. */
  lemma GuardsAreChecks(schema: KeySchema, doc: ConfigDoc, existing: set<string>)
    ensures FirstFailingGuard(schema, doc, existing) == FirstFailing(schema, doc, existing)
  {
    forall st: Stage ensures GuardPasses(schema, doc, existing, st) == Passes(schema, doc, existing, st) {
      GuardDecides(schema, doc, existing, st);
    }
  }

  /** ConfigCheck fails with the problem of the first failing test. */
  lemma ConfigCheckFollowsGuards(schema: KeySchema, doc: ConfigDoc, existing: set<string>)
    ensures CheckDocument(schema, Parsed(doc), existing).Done? <==> FirstFailingGuard(schema, doc, existing) == None
    ensures CheckDocument(schema, Parsed(doc), existing).Fail? ==>
      && CheckDocument(schema, Parsed(doc), existing).failure.error.problem
           == ProblemOf(FirstFailingGuard(schema, doc, existing).value)
      && CheckDocument(schema, Parsed(doc), existing).failure.error
           == StageError(schema, doc, existing, FirstFailingGuard(schema, doc, existing).value)
  {
  }

  lemma KeyStagePasses(required: seq<string>, present: seq<string>)
    ensures (forall k :: k in required ==> k in present) <==> |MissingKeys(required, present)| == 0
    ensures (forall k :: k in present ==> k in required) <==> |ExtraKeys(required, present)| == 0
  {
    var missing := MissingKeys(required, present);
    var extra := ExtraKeys(required, present);
    if |missing| > 0 { assert missing[0] in missing; }
    if |extra| > 0 { assert extra[0] in extra; }
  }

  lemma FileStagePasses(files: seq<string>, existing: set<string>)
    ensures (forall f :: f in files ==> f in existing) <==> FirstMissingFile(files, existing) == |files|
  {
    var f := FirstMissingFile(files, existing);
    if f < |files| { assert files[f] in files; }
  }

  lemma ColorStagePasses(colors: seq<Value>)
    ensures (forall c :: c in colors ==> CheckColor(c)) <==> FirstBadColor(colors) == |colors|
  {
    var c := FirstBadColor(colors);
    if c < |colors| { assert colors[c] in colors; }
  }

  /** A top-level key the document lacks is named in the error, whatever
      else is wrong with the document. */
  lemma MissingToplevelKeyIsNamed(doc: ConfigDoc, existing: set<string>, k: string)
    requires k in ToplevelKeys && k !in doc.keys
    ensures var r := ConfigCheck(Parsed(doc), existing);
      && r.Fail?
      && r.failure.error.problem == MissingToplevelKeys
      && r.failure.error.value.Names?
      && k in r.failure.error.value.names
      && r.failure.error.filename == Some(ConfigFilename)
  {
    assert k in MissingKeys(ToplevelKeys, doc.keys);
  }


  /** The object ConfigValidator() builds: the five attributes the source
      assigns once every check has passed. */
  class ConfigValidator {
    var pubDbFilenames: seq<string>
    var pubFields: seq<string>
    var validColors: seq<Value>
    var blockLimits: seq<Value>
    var coverLimits: seq<Value>

    /** The attributes as one value. */
    function Current(): Settings
      reads this
    {
      Settings(pubDbFilenames, pubFields, validColors, blockLimits, coverLimits)
    }

    constructor ()
      ensures Current() == Settings([], [], [], [], [])
    {
      pubDbFilenames, pubFields, validColors := [], [], [];
      blockLimits, coverLimits := [], [];
    }

    /** The body of ConfigValidator.__init__: read the document, run the
        checks in order, and assign the attributes only when all pass. */
    method Validate(src: Read<ConfigDoc>, existing: set<string>) returns (error: Option<ValidationError>)
      modifies this
      ensures ConfigCheck(src, existing).Done? ==> error == None && Current() == ConfigCheck(src, existing).value
      ensures ConfigCheck(src, existing).Fail? ==>
        error == Some(ConfigCheck(src, existing).failure.error) && unchanged(this)
    {
      if src.NotFound? {
        return Some(ValidationError(ConfigError, ConfigFileNotFound, Name(ConfigFilename), None));
      }
      if src.Undecodable? {
        return Some(ValidationError(ConfigError, ConfigUnreadable, Name(ConfigFilename), None));
      }
      var data := src.content;

      var missing := MissingKeys(ToplevelKeys, data.keys);
      var extra := ExtraKeys(ToplevelKeys, data.keys);
      if |missing| > 0 {
        return Some(ValidationError(ConfigError, MissingToplevelKeys, Names(missing), Some(ConfigFilename)));
      }
      if |extra| > 0 {
        return Some(ValidationError(ConfigError, ExtraToplevelKeys, Names(extra), Some(ConfigFilename)));
      }

      missing := MissingKeys(ValidationKeys, data.validation.keys);
      extra := ExtraKeys(ValidationKeys, data.validation.keys);
      if |missing| > 0 {
        return Some(ValidationError(ConfigError, MissingValidationKeys, Names(missing), Some(ConfigFilename)));
      }
      if |extra| > 0 {
        return Some(ValidationError(ConfigError, ExtraValidationKeys, Names(extra), Some(ConfigFilename)));
      }

      for i := 0 to |data.pubDbFilenames|
        invariant forall j :: 0 <= j < i ==> data.pubDbFilenames[j] in existing
      {
        var filename := data.pubDbFilenames[i];
        if filename !in existing {
          return Some(ValidationError(ConfigError, PubDbFileMissing, Name(filename), None));
        }
      }

      for i := 0 to |data.validation.colors|
        invariant forall j :: 0 <= j < i ==> CheckColor(data.validation.colors[j])
      {
        var color := data.validation.colors[i];
        if !CheckColor(color) {
          return Some(ValidationError(ConfigError, BadColorValue, Item(color), Some(ConfigFilename)));
        }
      }

      var block := data.validation.blockLimits;
      if !CheckLimits(block) {
        return Some(ValidationError(ConfigError, BadBlockLimits, Items(block), Some(ConfigFilename)));
      }
      var cover := data.validation.coverLimits;
      if !CheckLimits(cover) {
        return Some(ValidationError(ConfigError, BadCoverLimits, Items(cover), Some(ConfigFilename)));
      }

      pubDbFilenames := data.pubDbFilenames;
      pubFields := data.pubFields;
      validColors := data.validation.colors;
      blockLimits := data.validation.blockLimits;
      coverLimits := data.validation.coverLimits;
      error := None;
    }
  }
}
