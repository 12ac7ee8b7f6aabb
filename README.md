# booky validation layer, in Dafny

booky keeps a database of publications (journals, proceedings) for a
bookbinder. Each publication has a key, a title, block and cover dimensions
in millimetres and a cloth colour. Everything booky does rests on the
validation of two things:

- the configuration file `configure.toml`;
- the publication database files that the configuration lists.

This project models that validation layer and proves what it guarantees.
It covers three revisions of the checks (booky.py, booky/config.py and
booky/validation.py), and the sorting and search of booky/publication.py.

- **booky.py**, the stand-alone validator.
  - **Pure checkers.** `check_color`, `check_limits`, `is_within_limits`,
    `missing_keys` and `extra_keys` live in module `BookyChecks`.
  - **Errors.** `ValidationError`, `ConfigError` and `PubError`, with
    their user messages, live in `BookyErrors`. That module also models the
    Python exceptions the validator does not catch: KeyError, TypeError and
    AttributeError.
  - **`ConfigValidator`.** A fail-fast sequence of checks (`BookyConfigValidator`):
    - the top-level keys, then the keys of the `validation` table;
    - the existence of every publication database file;
    - the colours, then the block limits and the cover limits.
    The first check that fails raises a `ConfigError`. Only when all pass
    are the five attributes assigned. The class `ConfigValidator` has a
    `Validate` method that runs the `__init__` body step by step. It is
    proved equal to the function `ConfigCheck`.
  - **`Pub`.** Construction reads six fields, in order (`BookyRecords.MakePub`).
  - **`PubValidator`.** Two nested loops, over files and over the records
    of each file, fill the `pub_keys` list and the `pubs` dictionary
    (`BookyRecords`, `BookyLoading`, `BookyPubValidator`). The checks for
    one record run in this order:
    - a duplicate key, counted across all files read so far;
    - the field keys;
    - the colour;
    - the four dimensions.
    A record enters `pub_keys` and `pubs` only after every check passes.
    - **Class.** `PubValidator` has a `Validate` method with the two loops
      and their invariants. It is proved equal to the function `PubLoad`.
    - **Properties.** The lemmas about `PubLoad` state:
      - exactly when a load succeeds;
      - what the key list and the dictionary then hold;
      - what a failure names;
      - that a key repeated across files is rejected.
- **booky/config.py**, the pydantic configuration model (`Config`):
  - `check_limits`, which checks the length first, then `0 < a < b`;
  - the field validators of `PubValidationConfig`. pydantic runs every
    field validator and reports all their errors together;
  - the `good_*` predicates of `BookyConfig`.
- **booky/validation.py**, a later revision (`Validation`):
  - its own `check_limits`, whose length message always says `desc`;
  - the field validators of `Pub`;
  - `PubDB`, a dictionary of validated `Pub`s.
  Its `PubValidationConfig` and `BookyConfig` repeat those of
  booky/config.py and are modelled once, in `Config`.
- **booky/publication.py** (`Publication`):
  - `sorted_rows`, a loop over the sorted keys;
  - `search_keys` and `search_titles`, loops that keep the entries whose
    key or title matches a glob pattern, ignoring case.
  Its `Pub` validators repeat those of booky/validation.py and are
  modelled once, in `Validation`.
- **Module `Revisions`** relates the two styles:
  - booky.py accepts every limits list the pydantic model accepts, plus
    those whose lower end is not positive;
  - under matching configurations both judge a well-typed publication
    alike.

### Inputs

- **Reading the configuration.** Becomes a `Read<ConfigDoc>` parameter:
  not found, undecodable, or a parsed document.
- **The file-existence test.** Becomes a set of existing file names.
- **Reading each database file.** Becomes a function from file name to
  `Read<Catalog>`.
- **Values.** TOML values are integers, booleans, strings, or anything
  else. A boolean passes Python's `isinstance(x, int)`.
- **String order.** `sorted` orders strings by code points
  (`Publication.Below`).
- **Case.** `str.upper` is modelled on ASCII letters.
- **Globs.** `fnmatchcase` is modelled with `*` and `?`.

### What each revision checks

- **Ticket layout and colour uniqueness.** booky.py checks neither. Only
  the pydantic revisions check that the colours are unique. The ticket
  layout configuration is not part of this model.
- **`pub-fields`.** booky.py reads the publication fields from the
  configuration's `pub-fields` list and compares them with a record's
  keys as sets.
- **Fail-fast or all errors.** booky.py stops at the first failing check.
  The pydantic models run every field validator and report all failures
  together (`Config.MakePubValidation`, `Validation.ValidatePub`).
- **Titles.** No revision checks the title.
- **Positive limits.** booky.py's `check_limits` does not require
  positive limits; the pydantic revisions do.

## Model

| member | source | states |
|---|---|---|
| `BookyChecks.WithinLimitsInclusive` | booky.py:26-28 | both ends of `[a, b]` are within the limits and one step past either end is not |
| `BookyChecks.CheckColor` | booky.py:13-15 | a colour passes exactly when it is a string of three characters (a definition; `BookyConfigValidator.ColorStagePasses` relates it to the colour check) |
| `BookyChecks.CheckLimits` | booky.py:18-23 | limits pass exactly when they are two integers, the first below the second, with no positivity (a definition; `Revisions.StandaloneLimitsLooser` compares it with the pydantic check) |
| `BookyChecks.IsWithinLimits` | booky.py:26-28 | a value within the limits means the limits form a non-empty interval |
| `BookyChecks.MissingKeys` | booky.py:31-33 | a key is in the result exactly when it is in the first list and not in the second |
| `BookyChecks.ExtraKeys` | booky.py:36-38 | a key is in the result exactly when it is in the second list and not in the first |
| `BookyChecks.MissingKeysCounts` | booky.py:31-33 | a missing key appears in the result as often as in the first list |
| `BookyChecks.MissingKeysInOrder` | booky.py:33 | the missing keys keep the order of the first list (a subsequence of it) |
| `BookyChecks.SameKeysIff` | booky.py:91-98 | no missing and no extra keys exactly when both lists hold the same keys |
| `BookyErrors.UserMessage` | booky.py:44-52 | the user message starts with the problem's text, and ends with ` in file '<name>'` when the filename is truthy |
| `BookyErrors.UserMessageFileSuffix` | booky.py:49-52 | None or `''` as the filename leaves the message as without a file; any other name appends exactly the file suffix |
| `BookyErrors.Describe` | booky.py:55-66 | `str()` of a ConfigError or PubError ends with the whole user message |
| `BookyErrors.DescribeDetermines` | booky.py:55-66 | two errors with the same `str()` have the same class and the same user message |
| `BookyErrors.AsWrittenCoverMessagesCollide` | booky.py:223-225 | as written, the cover-width and cover-height failures carry the same message text |
| `BookyErrors.RecordMessagesDistinct` | booky.py:193-225 | with the corrected text, any two different record checks have different messages |
| `BookyConfigValidator.FirstMissingFile` | booky.py:115-118 | the position returned is that of the first listed file that does not exist; every file before it exists |
| `BookyConfigValidator.FirstBadColor` | booky.py:123-125 | the position returned is that of the first colour that fails check_color; every colour before it passes |
| `BookyConfigValidator.CheckDocument` | booky.py:76-143 | for any key lists: every failure is a ConfigError; success means the document was parsed, the settings are its values, and they pass every check |
| `BookyConfigValidator.ConfigCheck` | booky.py:76-143 | with ConfigValidator's own key lists: every failure is a ConfigError; a missing or undecodable file fails naming `configure.toml`, with no file name; success means a parsed document whose values pass every check |
| `BookyConfigValidator.FirstFailingIsFirst` | booky.py:90-135 | the check order has a first failing stage before which every stage passes, and none exactly when all pass |
| `BookyConfigValidator.ConfigCheckFailFast` | booky.py:90-143 | a parsed document is accepted exactly when all checks pass; otherwise the raised error is the one the first failing check raises: its problem, its value (the offending keys, the first missing file, the first bad colour, or the limits list) and its file name (none for a missing publication file) |
| `BookyConfigValidator.KeyStagePasses` | booky.py:91-110 | the key checks pass exactly when the required and the present keys are the same set |
| `BookyConfigValidator.FileStagePasses` | booky.py:114-118 | the file check passes exactly when every listed file exists |
| `BookyConfigValidator.ColorStagePasses` | booky.py:122-125 | the colour check passes exactly when every colour is a three-character string |
| `BookyConfigValidator.MissingToplevelKeyIsNamed` | booky.py:91-95 | a missing top-level key makes validation fail with "Missing toplevel keys", naming that key and the configuration file |
| `BookyConfigValidator.ConfigValidator.constructor` | booky.py:69-74 | a new validator holds no settings |
| `BookyConfigValidator.ConfigValidator.Validate` | booky.py:76-143 | on success the attributes are the document's values and no error is returned; on failure the ConfigCheck error is returned and nothing is assigned |
| `BookyRecords.MakePub` | booky.py:146-155 | Pub(data) succeeds exactly when all six fields are present, copying them; otherwise it raises a KeyError for a missing field |
| `BookyRecords.CheckFields` | booky.py:199-225 | a fresh record passes exactly when its field keys, colour and four dimensions pass; a PubError it raises names the file and carries the key or the key and the offending value |
| `BookyRecords.DimensionOk` | booky.py:208-225 | a dimension passes when the field is present, is a number and lies within the limits (a definition; `BookyRecords.AcceptedPubIsSound` states its consequence for a built Pub) |
| `BookyRecords.CheckRecord` | booky.py:192-229 | "Duplicate key" is raised exactly when the key was accepted before; every PubError names the file and carries the key (duplicate key, bad field keys) or the key and the offending value (colour and each dimension); an accepted record is a table, and its Pub is built from its fields |
| `BookyRecords.FirstFailingStepIsFirst` | booky.py:193-229 | the record's steps have a first failing one before which all pass, and none exactly when all pass |
| `BookyRecords.CheckRecordFailFast` | booky.py:194-225 | a record is accepted exactly when every step passes; a PubError raised is that of the first failing step |
| `BookyRecords.AcceptedPubIsSound` | booky.py:202-229 | an accepted record's Pub has a configured colour and all four dimensions within their limits |
| `BookyLoading.LoadRecords` | booky.py:192-229 | the inner loop over one file's records (a definition; its properties are the `LoadRecords*` lemmas) |
| `BookyLoading.LoadFiles` | booky.py:181-229 | the outer loop over the files (a definition; its properties are the `LoadFiles*` lemmas) |
| `BookyLoading.LoadRecordsKeys` | booky.py:192-229 | loading one file appends its keys in document order; none repeats and none was accepted before |
| `BookyLoading.LoadRecordsPubKeys` | booky.py:192-229 | after one file, the dictionary has exactly the old keys plus the file's keys, and keeps every earlier Pub whose key the file does not repeat |
| `BookyLoading.LoadRecordsPubs` | booky.py:192-229 | after one file, each record's key holds the Pub its check built against the keys accepted before it |
| `BookyLoading.LoadRecordsKeep` | booky.py:227-229 | a property of every Pub the check builds holds of every Pub in the dictionary after one file |
| `BookyLoading.LoadRecordsPassAll` | booky.py:192-229 | after a successful file, every record passed its check against the keys accepted before it |
| `BookyLoading.LoadRecordsFailure` | booky.py:192-225 | a failed file failed on its first failing record: every record before it passed, and that record's own check against the keys accepted before it gives the failure |
| `BookyLoading.LoadFilesKeys` | booky.py:181-229 | after all files, every file was read and `pub_keys` is the files' keys in order, with no repeats |
| `BookyLoading.LoadFilesPubKeys` | booky.py:176-229 | after all files, `pubs` has exactly the keys of the files plus those held before, and keeps the earlier Pubs |
| `BookyLoading.LoadFilesPubs` | booky.py:181-229 | after all files, each record's key holds the Pub its check built against the keys accepted before it |
| `BookyLoading.LoadFilesKeep` | booky.py:181-229 | a property of every Pub the checks build holds of the whole dictionary |
| `BookyLoading.LoadFilesFailure` | booky.py:181-225 | a failed load stops at the first problem in file-then-record order: every earlier file was read with all its records passing, and the file it stops in is missing or unreadable (named in the error), or has a record whose own check fails after all records before it in the file passed |
| `BookyLoading.DuplicateAcrossFilesFails` | booky.py:172-195 | a key in two different files makes the load fail |
| `BookyPubValidator.ChecksRejectAccepted` | booky.py:194-195 | every record check rejects a key accepted before |
| `BookyPubValidator.PubLoad` | booky.py:169-229 | the configuration check followed by the two loops (a definition; its properties are `PubLoadSucceeds`, `PubLoadAcceptsIff` and `PubLoadFailure`) |
| `BookyPubValidator.PubLoadSucceeds` | booky.py:169-229 | on success: the configuration passed; `pub_keys` is every file's keys in order, with no repeats; `pubs` has a Pub for exactly those keys, each meeting the colours and limits and built from its record |
| `BookyPubValidator.PubLoadAcceptsIff` | booky.py:169-229 | validation succeeds exactly when the configuration passes, every file is read, and every record passes against the keys accepted before it |
| `BookyPubValidator.PubLoadFailure` | booky.py:181-225 | a failure after a passing configuration is the first problem in file-then-record order: every earlier file was read with all its records passing; the problem is a missing or unreadable file, named alone, or the first record of its file whose checks fail against the keys accepted before it; "Duplicate key" names a key accepted before, and its file |
| `BookyPubValidator.DuplicateAcrossFilesRejected` | booky.py:178-195 | a key found in two listed files makes validation fail |
| `BookyPubValidator.PubValidator.constructor` | booky.py:161-176 | a new validator starts with an empty key list and an empty dictionary |
| `BookyPubValidator.PubValidator.Validate` | booky.py:169-229 | the method's result, configuration and collections are those of PubLoad: the settings and the directory on success, and the same failure otherwise |
| `Config.CheckLimits` | booky/config.py:41-70 | accepts exactly `[a, b]` with `0 < a < b`, returned unchanged; a wrong length is reported first and names the description and the limits |
| `Config.EnsureLimits` | booky/config.py:91-101 | block or cover limits pass exactly when valid, unchanged; otherwise check_limits' error naming the field |
| `Config.UniqueColors` | booky/validation.py:60-66 | the colours pass exactly when no colour is listed twice, and come back unchanged |
| `Config.MakePubValidation` | booky/config.py:73-110 | the model exists exactly when all three validators pass; otherwise one to three errors, one per failing field, a duplicate colour reported first |
| `Config.BlockBoundaries` | booky/config.py:197-203 | block height and width accept both ends of the block limits and reject the values just outside, and agree on every value |
| `Config.CoverBoundaries` | booky/config.py:205-211 | cover height and width accept both ends of the cover limits and reject the values just outside, and agree on every value |
| `Config.GoodColor` | booky/config.py:194-195 | a colour is good exactly when it is in the configured list (a definition; `Config.GoodColorListedOnce` states it is listed once) |
| `Config.GoodBlockHeight` | booky/config.py:197-199 | only positive heights pass, since the validated block limits are positive |
| `Config.GoodBlockWidth` | booky/config.py:201-203 | only positive widths pass, since the validated block limits are positive |
| `Config.GoodCoverHeight` | booky/config.py:205-207 | only positive heights pass, since the validated cover limits are positive |
| `Config.GoodCoverWidth` | booky/config.py:209-211 | only positive widths pass, since the validated cover limits are positive |
| `Config.AcceptedIntervalsPositive` | booky/config.py:161-211 | under a validated configuration the block and cover tests each accept some value, and every value any dimension test accepts is positive |
| `Config.GoodColorListedOnce` | booky/config.py:194-195 | a colour is good when it occurs in the configured list, and under a validated configuration it occurs there exactly once |
| `Validation.CheckLimits` | booky/validation.py:11-18 | accepts exactly `[a, b]` with `0 < a < b`, unchanged; a wrong length gives the message naming `desc`; bad values name the caller's description |
| `Validation.CheckLimitsRevisionsAgree` | booky/validation.py:11-18 | both revisions of check_limits accept the same lists and agree except for the description in the length message |
| `Validation.LengthMessageMisnames` | booky/validation.py:13 | for a wrong length and any description other than `desc`, the message names the wrong field |
| `Validation.ValidColor` | booky/validation.py:123-129 | the colour passes unchanged exactly when configured; otherwise the error carries the colour |
| `Validation.ValidBlockHeight` | booky/validation.py:131-137 | passes unchanged exactly within the block limits, both ends included; otherwise the error carries the value and the limits |
| `Validation.ValidBlockWidth` | booky/validation.py:139-145 | passes unchanged exactly within the block limits, both ends included; otherwise the error carries the value and the limits |
| `Validation.ValidCoverHeight` | booky/validation.py:147-153 | passes unchanged exactly within the cover limits, both ends included; otherwise the error carries the value and the limits |
| `Validation.ValidCoverWidth` | booky/validation.py:155-161 | passes unchanged exactly within the cover limits, both ends included; otherwise the error carries the value and the limits |
| `Validation.PubErrors` | booky/validation.py:123-161 | the five field validators report no error exactly when all five `good_*` predicates hold |
| `Validation.ValidatePub` | booky/validation.py:115-161 | a Pub is built, unchanged, exactly when all five field predicates hold |
| `Validation.ValidatePubReportsFailures` | booky/publication.py:56-109 | a refused Pub reports one to five errors, with an error for a field exactly when that field fails |
| `Validation.ValidatePubDB` | booky/validation.py:169-170 | the database exists, unchanged, exactly when every entry is valid; otherwise errors are reported for exactly the failing keys |
| `Validation.PubDBHoldsValidPubs` | booky/publication.py:177-199 | a corollary of the contracts of ValidatePubDB and ValidatePub: a database has the input's keys and each entry passes Pub validation unchanged |
| `Publication.BelowIrreflexive` | booky/publication.py:129 | no string sorts before itself |
| `Publication.BelowTransitive` | booky/publication.py:129 | string order is transitive |
| `Publication.BelowTotal` | booky/publication.py:129 | of two different strings one sorts before the other |
| `Publication.Least` | booky/publication.py:129 | the result is in the set and sorts before every other element |
| `Publication.SortKeys` | booky/publication.py:129 | `sorted(keys)` holds exactly the keys, each once, in strictly ascending order |
| `Publication.SortedRows` | booky/publication.py:112-137 | one row per entry, keys strictly ascending and covering the dictionary, each row copying its entry |
| `Publication.Upper` | booky/publication.py:228 | upper-casing keeps the length, leaves no ASCII lower-case letter, turns each lower-case letter into its own capital and keeps every other character |
| `Publication.UpperIdempotent` | booky/publication.py:241-242 | upper-casing twice is upper-casing once |
| `Publication.Match` | booky/publication.py:228 | a match by a pattern without `*` is a name of the pattern's own length |
| `Publication.StarMatchesAll` | booky/publication.py:223 | the pattern `*` matches every name |
| `Publication.LiteralMatch` | booky/publication.py:228 | a pattern without `*` or `?` matches exactly the name it spells |
| `Publication.SearchKeys` | booky/publication.py:219-230 | the result has exactly the entries whose upper-cased key matches the upper-cased pattern, unchanged |
| `Publication.SearchTitles` | booky/publication.py:232-244 | the result has exactly the entries whose upper-cased title matches the upper-cased pattern, unchanged |
| `Publication.SearchCaseInsensitive` | booky/publication.py:226-243 | a pattern and its upper-cased form find the same entries, by key and by title |
| `Publication.SearchStarFindsAll` | booky/publication.py:219-244 | the pattern `*` finds every entry, by key and by title |
| `Revisions.StandaloneLimitsLooser` | booky.py:18-23 | booky.py accepts every limits list the pydantic check accepts, plus exactly the ascending pairs whose lower end is not positive |
| `Revisions.ZeroLowerLimitOnlyStandalone` | booky/config.py:64-70 | `[0, 1]` passes booky.py's check and fails the pydantic one |
| `Revisions.GoodIsWithinLimits` | booky/validation.py:80-97 | each `good_*` dimension predicate is is_within_limits over the configured limits |
| `Revisions.RecordChecksAgree` | booky.py:202-225 | under matching configurations, booky.py's colour and limit checks accept a well-typed publication exactly when the pydantic Pub validators do |

## Left out

- **File and TOML I/O.** Opening files and decoding TOML are replaced by
  the `Read<...>` parameters and the set of existing files. So are the
  `os.path.isfile` test and the module-level loading of `BOOKY_CONFIG`.
  The configuration object is passed as a parameter instead of being a
  global.
- **Logging, Rich output and the CLI.** Logging, the Rich tables
  (`print_wide_table`, `display_narrow`, `display_wide`, `BookyConfig.display`)
  and the printing of search results are left out. So are `__main__.py`,
  `ticket.py`, `messages.py` and `display.py`: they are outside the
  validation layer.
- **`TicketLayoutConfig` and the `ticket_layout` field.** Left out,
  because they are plain type checks with no validator.
- **pydantic type coercion.** The model assumes fields already have their
  declared types (strings and integers).
- **Floats.** Float values are not modelled. In booky.py a float
  dimension compares with integer limits; the model raises a TypeError
  for every non-integer dimension instead.
- **Unicode.** Case mapping outside ASCII letters is not modelled.
- **fnmatch.** Character classes `[...]` in patterns are not modelled.
- **Attribute names.** booky.py stores the cover height of a `Pub` under
  the misspelt attribute `cover_heigth` (booky.py:153). The model names
  the field by its meaning; code reading `cover_height` later is not part
  of this model.
- **`PubValidator.unique_keys`.** This class attribute is never used.
- **Duplicated definitions.** The `PubValidationConfig` and `BookyConfig`
  of booky/validation.py repeat booky/config.py; they are modelled once, in
  `Config`, using the corrected `check_limits`. Likewise, the `Pub` of
  booky/publication.py repeats booky/validation.py's and is modelled once.
- **`ConfigDoc` slot types.** `ConfigDoc` gives each slot the shape
  booky.py expects: `pub-db-filenames`, `pub-fields`, `colors` and both
  limits are lists, and `validation` is a table. Other shapes are not
  modelled, and Python treats them in different ways. A `validation` that
  is not a table raises an AttributeError at `.keys()` (booky.py:103-104).
  A string under `pub-db-filenames` or `colors` is iterated one character
  at a time (booky.py:115 and booky.py:123), so the checks see single
  characters. A number there raises a TypeError. `pub-fields` and the
  limits of other shapes are likewise not modelled.
- BookyErrors.UserMessage: the message is built from the corrected texts
  (`Wording`), so a cover-width failure begins "Cover width outside
  limits:" where booky.py:225 passes "Cover height outside limits:". The
  text as written is `WordingAsWritten`, which differs from `Wording` only
  for that check (see Findings).
- BookyPubValidator.PubValidator.Validate: after a failure, the contract
  states the returned failure but not the partly filled `pub_keys` and
  `pubs`, because Python discards the half-built object along with the
  exception.
- BookyConfigValidator.ConfigValidator.Validate: the check order is proved
  about `ConfigCheck` (ConfigCheckFailFast), not restated on the method.
- Publication.SortedRows: the rows keep the dimensions as numbers instead
  of their `str()` forms.
- Publication.SearchKeys: the result is a map, so the key order in which
  Python inserts the entries is not stated.
- Publication.SearchTitles: the result is a map, so the key order in which
  Python inserts the entries is not stated.

## Findings

| source | as written | input that shows it | evidently intended | confidence | as-written member | corrected member |
|---|---|---|---|---|---|---|
| booky.py:223-225 | the cover-width check raises with the text "Cover height outside limits:" | a record whose cover width is outside the cover limits while its cover height is inside | "Cover width outside limits:", so that each check has its own message | high; not executed | `BookyErrors.AsWrittenCoverMessagesCollide` | `BookyErrors.RecordMessagesDistinct` |
| booky/validation.py:13 | the length message is a literal "desc must have length 2", not interpolating the description | `check_limits([1, 2, 3], 'block_limits')` reports `desc` instead of `block_limits` | the caller's description, as booky/config.py:65 writes it | high; not executed | `Validation.LengthMessageMisnames` | `Config.CheckLimits` |
