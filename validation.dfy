/** The later revision of the pydantic model, booky/validation.py: its own
    limits check, the field validators of Pub, and PubDB, a dictionary of
    validated Pubs. Its PubValidationConfig and BookyConfig repeat those of
    booky/config.py and are modelled there (Config); its validators use the
    limits check with the length message corrected. */
module Validation {
  import opened Basics
  import Config

  /** check_limits as booky/validation.py writes it: the same checks as
      booky/config.py, but the length message does not interpolate its
      argument and always names `desc`. */
  function CheckLimits(limits: seq<int>, desc: string): (r: Result<seq<int>, Config.LimitsError>)
    ensures r.Ok? <==> Config.LimitsOk(limits)
    ensures r.Ok? ==> r.value == limits
    ensures |limits| != 2 ==> r == Err(Config.WrongLength("desc", limits))
    ensures |limits| == 2 && !Config.LimitsOk(limits) ==> r == Err(Config.NotPositiveIncreasing(desc))
  {
    if |limits| != 2 then Err(Config.WrongLength("desc", limits))
    else
      var a, b := limits[0], limits[1];
      if !(a > 0 && b > 0 && limits[0] < limits[1]) then Err(Config.NotPositiveIncreasing(desc))
      else Ok(limits)
  }

  /** The two revisions of check_limits accept the same limits, return
      them unchanged, and raise the same error except for the description
      in the length message, which here is always `desc`. */
  lemma CheckLimitsRevisionsAgree(limits: seq<int>, desc: string)
    ensures CheckLimits(limits, desc).Ok? <==> Config.CheckLimits(limits, desc).Ok?
    ensures CheckLimits(limits, desc).Ok? ==> CheckLimits(limits, desc) == Config.CheckLimits(limits, desc)
    ensures |limits| == 2 ==> CheckLimits(limits, desc) == Config.CheckLimits(limits, desc)
    ensures |limits| != 2 ==>
      CheckLimits(limits, desc).error == Config.CheckLimits(limits, desc).error.(description := "desc")
  {
  }

  /** Whenever the length is wrong and the caller's description is not
      literally `desc`, the message names the wrong field. */
  lemma LengthMessageMisnames(limits: seq<int>, desc: string)
    requires |limits| != 2 && desc != "desc"
    ensures CheckLimits(limits, desc).error.description != desc
    ensures CheckLimits(limits, desc) != Config.CheckLimits(limits, desc)
  {
  }

  /** A publication record as pydantic types it. */
  datatype Pub = Pub(title: string, blockHeight: int, blockWidth: int,
                     coverHeight: int, coverWidth: int, color: string)

  /** A Pub field validator's ValueError: the rejected value, and the
      limits it was held against. */
  datatype PubFieldError =
    | BadColor(color: string)
    | BadBlockHeight(blockHeight: int, limits: seq<int>)
    | BadBlockWidth(blockWidth: int, limits: seq<int>)
    | BadCoverHeight(coverHeight: int, limits: seq<int>)
    | BadCoverWidth(coverWidth: int, limits: seq<int>)

  /** valid_color: the colour unchanged when it is a configured colour. */
  function ValidColor(cfg: Config.BookyConfig, color: string): (r: Result<string, PubFieldError>)
    ensures r.Ok? <==> color in cfg.pubValidation.colors
    ensures r.Ok? ==> r.value == color
    ensures r.Err? ==> r.error == BadColor(color)
  {
    if !Config.GoodColor(cfg, color) then Err(BadColor(color)) else Ok(color)
  }

  /** valid_block_height: the value unchanged when it lies within the
      block limits, both ends included. */
  function ValidBlockHeight(cfg: Config.BookyConfig, bh: int): (r: Result<int, PubFieldError>)
    ensures var lim := cfg.pubValidation.blockLimits;
      && (r.Ok? <==> lim[0] <= bh <= lim[1])
      && (r.Ok? ==> r.value == bh)
      && (r.Err? ==> r.error == BadBlockHeight(bh, lim))
  {
    if !Config.GoodBlockHeight(cfg, bh) then Err(BadBlockHeight(bh, cfg.pubValidation.blockLimits)) else Ok(bh)
  }

  /** valid_block_width: the same test on the width. */
  function ValidBlockWidth(cfg: Config.BookyConfig, bw: int): (r: Result<int, PubFieldError>)
    ensures var lim := cfg.pubValidation.blockLimits;
      && (r.Ok? <==> lim[0] <= bw <= lim[1])
      && (r.Ok? ==> r.value == bw)
      && (r.Err? ==> r.error == BadBlockWidth(bw, lim))
  {
    if !Config.GoodBlockWidth(cfg, bw) then Err(BadBlockWidth(bw, cfg.pubValidation.blockLimits)) else Ok(bw)
  }

  /** valid_cover_height: the value unchanged when it lies within the
      cover limits, both ends included. */
  function ValidCoverHeight(cfg: Config.BookyConfig, ch: int): (r: Result<int, PubFieldError>)
    ensures var lim := cfg.pubValidation.coverLimits;
      && (r.Ok? <==> lim[0] <= ch <= lim[1])
      && (r.Ok? ==> r.value == ch)
      && (r.Err? ==> r.error == BadCoverHeight(ch, lim))
  {
    if !Config.GoodCoverHeight(cfg, ch) then Err(BadCoverHeight(ch, cfg.pubValidation.coverLimits)) else Ok(ch)
  }

  /** valid_cover_width: the same test on the width. */
  function ValidCoverWidth(cfg: Config.BookyConfig, cw: int): (r: Result<int, PubFieldError>)
    ensures var lim := cfg.pubValidation.coverLimits;
      && (r.Ok? <==> lim[0] <= cw <= lim[1])
      && (r.Ok? ==> r.value == cw)
      && (r.Err? ==> r.error == BadCoverWidth(cw, lim))
  {
    if !Config.GoodCoverWidth(cfg, cw) then Err(BadCoverWidth(cw, cfg.pubValidation.coverLimits)) else Ok(cw)
  }

  function PubErrorsOf<T>(r: Result<T, PubFieldError>): seq<PubFieldError> {
    if r.Err? then [r.error] else []
  }

  /** The five `good_*` predicates a Pub must meet. */
  predicate PubValid(cfg: Config.BookyConfig, p: Pub) {
    && Config.GoodColor(cfg, p.color)
    && Config.GoodBlockHeight(cfg, p.blockHeight) && Config.GoodBlockWidth(cfg, p.blockWidth)
    && Config.GoodCoverHeight(cfg, p.coverHeight) && Config.GoodCoverWidth(cfg, p.coverWidth)
  }

  /** The errors of the five field validators, in the order the fields are
      declared: none exactly when the Pub meets the configuration. */
  function PubErrors(cfg: Config.BookyConfig, p: Pub): (errors: seq<PubFieldError>)
    ensures errors == [] <==> PubValid(cfg, p)
  {
    PubErrorsOf(ValidBlockHeight(cfg, p.blockHeight)) + PubErrorsOf(ValidBlockWidth(cfg, p.blockWidth))
    + PubErrorsOf(ValidCoverHeight(cfg, p.coverHeight)) + PubErrorsOf(ValidCoverWidth(cfg, p.coverWidth))
    + PubErrorsOf(ValidColor(cfg, p.color))
  }

  /** Building a Pub: every field validator runs, in declaration order,
      and the Pub exists, unchanged, only when none failed. */
  function ValidatePub(cfg: Config.BookyConfig, p: Pub): (r: Result<Pub, seq<PubFieldError>>)
    ensures r.Ok? <==> PubValid(cfg, p)
    ensures r.Ok? ==> r.value == p
    ensures r.Err? ==> r.error == PubErrors(cfg, p)
  {
    var errors := PubErrors(cfg, p);
    if errors == [] then Ok(p) else Err(errors)
  }

  /** A refused Pub reports one error for each failing field, naming the
      rejected value and the limits it was held against, and no other. */
  lemma ValidatePubReportsFailures(cfg: Config.BookyConfig, p: Pub)
    requires ValidatePub(cfg, p).Err?
    ensures var errors := ValidatePub(cfg, p).error;
      && 0 < |errors| <= 5
      && (BadColor(p.color) in errors <==> !Config.GoodColor(cfg, p.color))
      && (BadBlockHeight(p.blockHeight, cfg.pubValidation.blockLimits) in errors <==>
           !Config.GoodBlockHeight(cfg, p.blockHeight))
      && (BadBlockWidth(p.blockWidth, cfg.pubValidation.blockLimits) in errors <==>
           !Config.GoodBlockWidth(cfg, p.blockWidth))
      && (BadCoverHeight(p.coverHeight, cfg.pubValidation.coverLimits) in errors <==>
           !Config.GoodCoverHeight(cfg, p.coverHeight))
      && (BadCoverWidth(p.coverWidth, cfg.pubValidation.coverLimits) in errors <==>
           !Config.GoodCoverWidth(cfg, p.coverWidth))
  {
    var e1 := PubErrorsOf(ValidBlockHeight(cfg, p.blockHeight));
    var e2 := PubErrorsOf(ValidBlockWidth(cfg, p.blockWidth));
    var e3 := PubErrorsOf(ValidCoverHeight(cfg, p.coverHeight));
    var e4 := PubErrorsOf(ValidCoverWidth(cfg, p.coverWidth));
    var e5 := PubErrorsOf(ValidColor(cfg, p.color));
    var errors := e1 + e2 + e3 + e4 + e5;
    assert ValidatePub(cfg, p).error == errors;
    var bl, cl := cfg.pubValidation.blockLimits, cfg.pubValidation.coverLimits;
    assert BadBlockHeight(p.blockHeight, bl) in errors <==> !Config.GoodBlockHeight(cfg, p.blockHeight) by {
      InFive(BadBlockHeight(p.blockHeight, bl), e1, e2, e3, e4, e5);
    }
    assert BadBlockWidth(p.blockWidth, bl) in errors <==> !Config.GoodBlockWidth(cfg, p.blockWidth) by {
      InFive(BadBlockWidth(p.blockWidth, bl), e1, e2, e3, e4, e5);
    }
    assert BadCoverHeight(p.coverHeight, cl) in errors <==> !Config.GoodCoverHeight(cfg, p.coverHeight) by {
      InFive(BadCoverHeight(p.coverHeight, cl), e1, e2, e3, e4, e5);
    }
    assert BadCoverWidth(p.coverWidth, cl) in errors <==> !Config.GoodCoverWidth(cfg, p.coverWidth) by {
      InFive(BadCoverWidth(p.coverWidth, cl), e1, e2, e3, e4, e5);
    }
    assert BadColor(p.color) in errors <==> !Config.GoodColor(cfg, p.color) by {
      InFive(BadColor(p.color), e1, e2, e3, e4, e5);
    }
  }

  /** Membership in five concatenated lists. */
  lemma InFive<T>(x: T, a: seq<T>, b: seq<T>, c: seq<T>, d: seq<T>, e: seq<T>)
    ensures x in a + b + c + d + e <==> x in a || x in b || x in c || x in d || x in e
  {
  }

  /** PubDB: every entry is validated; the database exists only when all
      pass, holding the input dictionary unchanged; otherwise the errors
      are reported for exactly the failing keys. */
  function ValidatePubDB(cfg: Config.BookyConfig, data: map<string, Pub>)
    : (r: Result<map<string, Pub>, map<string, seq<PubFieldError>>>)
    ensures r.Ok? <==> forall k :: k in data ==> PubValid(cfg, data[k])
    ensures r.Ok? ==> r.value == data
    ensures r.Err? ==>
      && r.error.Keys == set k | k in data && !PubValid(cfg, data[k])
      && forall k :: k in r.error ==> k in data && !PubValid(cfg, data[k]) && r.error[k] == PubErrors(cfg, data[k])
  {
    var failed := map k | k in data && !PubValid(cfg, data[k]) :: PubErrors(cfg, data[k]);
    if failed == map[] then
      assert forall k :: k in data ==> k !in failed;
      Ok(data)
    else Err(failed)
  }

  /** A PubDB holds only Pubs that meet the configuration, under exactly
      the keys of its input. */
  lemma PubDBHoldsValidPubs(cfg: Config.BookyConfig, data: map<string, Pub>)
    requires ValidatePubDB(cfg, data).Ok?
    ensures ValidatePubDB(cfg, data).value.Keys == data.Keys
    ensures forall k :: k in ValidatePubDB(cfg, data).value ==>
      ValidatePub(cfg, ValidatePubDB(cfg, data).value[k]) == Ok(data[k])
  {
  }
}
