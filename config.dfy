/** The pydantic configuration model of booky/config.py: the limits check,
    the validators of PubValidationConfig, and the `good_*` predicates of
    BookyConfig that the Pub validators consult. */
module Config {
  import opened Basics

  /** Why a limits list was refused: the ValueError's two messages, by
      kind, with the description they name. */
  datatype LimitsError =
    | WrongLength(description: string, given: seq<int>)
    | NotPositiveIncreasing(description: string)

  /** Limits `[a, b]` with `0 < a < b`. */
  predicate LimitsOk(limits: seq<int>) {
    |limits| == 2 && 0 < limits[0] < limits[1]
  }

  /** check_limits(limits, description): the length is checked first, then
      that both ends are positive and increasing; accepted limits come back
      unchanged. */
  function CheckLimits(limits: seq<int>, description: string): (r: Result<seq<int>, LimitsError>)
    ensures r.Ok? <==> LimitsOk(limits)
    ensures r.Ok? ==> r.value == limits
    ensures |limits| != 2 ==> r == Err(WrongLength(description, limits))
    ensures |limits| == 2 && !LimitsOk(limits) ==> r == Err(NotPositiveIncreasing(description))
  {
    if |limits| != 2 then Err(WrongLength(description, limits))
    else
      var a, b := limits[0], limits[1];
      if !(a > 0 && b > 0 && limits[0] < limits[1]) then Err(NotPositiveIncreasing(description))
      else Ok(limits)
  }

  /** A field validator's ValueError in PubValidationConfig. */
  datatype FieldError =
    | DuplicateColor(colors: seq<string>)
    | BadLimits(error: LimitsError)

  /** ensure_block_limits and ensure_cover_limits: the limits unchanged, or
      check_limits' error naming the field (`block_limits` or
      `cover_limits`). */
  function EnsureLimits(limits: seq<int>, field: string): (r: Result<seq<int>, FieldError>)
    ensures r.Ok? <==> LimitsOk(limits)
    ensures r.Ok? ==> r.value == limits
    ensures r.Err? ==> r.error == BadLimits(CheckLimits(limits, field).error)
  {
    match CheckLimits(limits, field)
    case Err(e) => Err(BadLimits(e))
    case Ok(_) => Ok(limits)
  }

  /** unique_colors: the colours unchanged when no colour is listed twice,
      detected by comparing the list's length with its set's size. */
  function UniqueColors(colors: seq<string>): (r: Result<seq<string>, FieldError>)
    ensures r.Ok? <==> Distinct(colors)
    ensures r.Ok? ==> r.value == colors
    ensures r.Err? ==> r.error == DuplicateColor(colors)
  {
    DistinctIffSameSize(colors);
    if |colors| != |Elements(colors)| then Err(DuplicateColor(colors)) else Ok(colors)
  }

  /** The validated `pub-validation` table. */
  datatype PubValidationConfig = PubValidationConfig(colors: seq<string>, blockLimits: seq<int>, coverLimits: seq<int>)

  predicate ValidPubValidation(c: PubValidationConfig) {
    Distinct(c.colors) && LimitsOk(c.blockLimits) && LimitsOk(c.coverLimits)
  }

  type ValidatedPubValidation = c: PubValidationConfig | ValidPubValidation(c)
    witness PubValidationConfig([], [1, 2], [1, 2])

  function ErrorsOf<T>(r: Result<T, FieldError>): seq<FieldError> {
    if r.Err? then [r.error] else []
  }

  /** Building PubValidationConfig: every field validator runs, in the
      order the fields are declared, and the model exists only when none
      failed; otherwise all their errors are reported together. */
  function MakePubValidation(colors: seq<string>, blockLimits: seq<int>, coverLimits: seq<int>)
    : (r: Result<ValidatedPubValidation, seq<FieldError>>)
    ensures r.Ok? <==> Distinct(colors) && LimitsOk(blockLimits) && LimitsOk(coverLimits)
    ensures r.Ok? ==> r.value == PubValidationConfig(colors, blockLimits, coverLimits)
    ensures r.Err? ==>
      && 0 < |r.error| <= 3
      && (DuplicateColor(colors) in r.error <==> !Distinct(colors))
      && (!LimitsOk(blockLimits) ==> BadLimits(CheckLimits(blockLimits, "block_limits").error) in r.error)
      && (!LimitsOk(coverLimits) ==> BadLimits(CheckLimits(coverLimits, "cover_limits").error) in r.error)
      && (forall e :: e in r.error ==>
            || (e == DuplicateColor(colors) && !Distinct(colors))
            || (e.BadLimits? && e.error.description == "block_limits" && !LimitsOk(blockLimits))
            || (e.BadLimits? && e.error.description == "cover_limits" && !LimitsOk(coverLimits)))
      && (!Distinct(colors) ==> r.error[0] == DuplicateColor(colors))
  {
    var errors := ErrorsOf(UniqueColors(colors)) + ErrorsOf(EnsureLimits(blockLimits, "block_limits"))
                  + ErrorsOf(EnsureLimits(coverLimits, "cover_limits"));
    if errors == [] then Ok(PubValidationConfig(colors, blockLimits, coverLimits)) else Err(errors)
  }

  /** BookyConfig, with the parts the validators read; the ticket layout is
      not part of this model. */
  datatype BookyConfig = BookyConfig(configFilename: string, pubDbFilename: string,
                                     pubValidation: ValidatedPubValidation)

  /** good_color: membership in the configured colours. */
  predicate GoodColor(cfg: BookyConfig, c: string) {
    c in cfg.pubValidation.colors
  }

  /** `a <= x <= b` for limits `[a, b]`. */
  predicate InLimits(x: int, limits: seq<int>)
    requires |limits| == 2
  {
    var a, b := limits[0], limits[1];
    a <= x && x <= b
  }

  /** good_block_height and the three below: `a <= x <= b` for the
      configured limits, which are positive, so only positive values pass. */
  predicate GoodBlockHeight(cfg: BookyConfig, bh: int)
    ensures GoodBlockHeight(cfg, bh) ==> bh > 0
  {
    InLimits(bh, cfg.pubValidation.blockLimits)
  }

  predicate GoodBlockWidth(cfg: BookyConfig, bw: int)
    ensures GoodBlockWidth(cfg, bw) ==> bw > 0
  {
    InLimits(bw, cfg.pubValidation.blockLimits)
  }

  predicate GoodCoverHeight(cfg: BookyConfig, ch: int)
    ensures GoodCoverHeight(cfg, ch) ==> ch > 0
  {
    InLimits(ch, cfg.pubValidation.coverLimits)
  }

  predicate GoodCoverWidth(cfg: BookyConfig, cw: int)
    ensures GoodCoverWidth(cfg, cw) ==> cw > 0
  {
    InLimits(cw, cfg.pubValidation.coverLimits)
  }

  /** Both ends of the block limits are accepted and the values just
      outside are not; height and width use the same test. */
  lemma BlockBoundaries(cfg: BookyConfig, x: int)
    ensures var lim := cfg.pubValidation.blockLimits;
      && GoodBlockHeight(cfg, lim[0]) && GoodBlockHeight(cfg, lim[1])
      && !GoodBlockHeight(cfg, lim[0] - 1) && !GoodBlockHeight(cfg, lim[1] + 1)
      && (GoodBlockHeight(cfg, x) <==> GoodBlockWidth(cfg, x))
  {
  }

  /** Both ends of the cover limits are accepted and the values just
      outside are not; height and width use the same test. */
  lemma CoverBoundaries(cfg: BookyConfig, x: int)
    ensures var lim := cfg.pubValidation.coverLimits;
      && GoodCoverHeight(cfg, lim[0]) && GoodCoverHeight(cfg, lim[1])
      && !GoodCoverHeight(cfg, lim[0] - 1) && !GoodCoverHeight(cfg, lim[1] + 1)
      && (GoodCoverHeight(cfg, x) <==> GoodCoverWidth(cfg, x))
  {
  }

  /** Under a validated configuration every dimension test accepts some
      value, and only positive ones: its interval is non-empty and lies
      above 0. */
  lemma AcceptedIntervalsPositive(cfg: BookyConfig, x: int)
    ensures exists y :: GoodBlockHeight(cfg, y)
    ensures exists y :: GoodCoverHeight(cfg, y)
    ensures GoodBlockHeight(cfg, x) || GoodBlockWidth(cfg, x) || GoodCoverHeight(cfg, x) || GoodCoverWidth(cfg, x)
            ==> x > 0
  {
    assert GoodBlockHeight(cfg, cfg.pubValidation.blockLimits[0]);
    assert GoodCoverHeight(cfg, cfg.pubValidation.coverLimits[0]);
  }

  /** Under a validated configuration each accepted colour is listed
      exactly once. */
  lemma GoodColorListedOnce(cfg: BookyConfig, c: string)
    requires GoodColor(cfg, c)
    ensures exists i :: 0 <= i < |cfg.pubValidation.colors| && cfg.pubValidation.colors[i] == c
    ensures forall i, j ::
      && 0 <= i < |cfg.pubValidation.colors| && 0 <= j < |cfg.pubValidation.colors|
      && cfg.pubValidation.colors[i] == c && cfg.pubValidation.colors[j] == c
      ==> i == j
  {
  }
}
