/** How the stand-alone validator (booky.py) and the pydantic model
    (booky/config.py, booky/validation.py) relate: which limits each
    accepts, and that they judge a well-typed publication alike. */
module Revisions {
  import opened Toml
  import BookyChecks
  import BookyConfigValidator
  import BookyRecords
  import Config
  import Validation

  function Ints(l: seq<int>): seq<Value> {
    seq(|l|, i requires 0 <= i < |l| => Int(l[i]))
  }

  function Strs(l: seq<string>): seq<Value> {
    seq(|l|, i requires 0 <= i < |l| => Str(l[i]))
  }

  /** Every limits list the pydantic model accepts, booky.py accepts too;
      booky.py accepts exactly those and the ones whose lower end is not
      positive. */
  lemma StandaloneLimitsLooser(l: seq<int>)
    ensures Config.LimitsOk(l) ==> BookyChecks.CheckLimits(Ints(l))
    ensures BookyChecks.CheckLimits(Ints(l)) <==> Config.LimitsOk(l) || (|l| == 2 && l[0] < l[1] && l[0] <= 0)
  {
  }

  /** `[0, 1]` passes booky.py's check and fails the pydantic one. */
  lemma ZeroLowerLimitOnlyStandalone()
    ensures BookyChecks.CheckLimits(Ints([0, 1])) && !Config.LimitsOk([0, 1])
  {
    assert Ints([0, 1]) == [Int(0), Int(1)];
  }

  /** The dimension predicates of BookyConfig are is_within_limits over the
      configured limits. */
  lemma GoodIsWithinLimits(cfg: Config.BookyConfig, x: int)
    ensures Config.GoodBlockHeight(cfg, x) == BookyChecks.IsWithinLimits(x, cfg.pubValidation.blockLimits)
    ensures Config.GoodBlockWidth(cfg, x) == BookyChecks.IsWithinLimits(x, cfg.pubValidation.blockLimits)
    ensures Config.GoodCoverHeight(cfg, x) == BookyChecks.IsWithinLimits(x, cfg.pubValidation.coverLimits)
    ensures Config.GoodCoverWidth(cfg, x) == BookyChecks.IsWithinLimits(x, cfg.pubValidation.coverLimits)
  {
  }

  /** The booky.py attributes matching a pydantic configuration whose
      colours are all three characters long. */
  function SettingsFor(cfg: Config.BookyConfig, files: seq<string>, fields: seq<string>)
    : (s: BookyConfigValidator.ValidatedSettings)
    requires forall c :: c in cfg.pubValidation.colors ==> |c| == 3
    ensures s.validColors == Strs(cfg.pubValidation.colors)
    ensures s.blockLimits == Ints(cfg.pubValidation.blockLimits)
    ensures s.coverLimits == Ints(cfg.pubValidation.coverLimits)
  {
    var colors := cfg.pubValidation.colors;
    assert forall v :: v in Strs(colors) ==> BookyChecks.CheckColor(v) by {
      forall v | v in Strs(colors) ensures BookyChecks.CheckColor(v) {
        var i :| 0 <= i < |colors| && Strs(colors)[i] == v;
        assert colors[i] in colors;
      }
    }
    BookyConfigValidator.Settings(files, fields, Strs(colors),
      Ints(cfg.pubValidation.blockLimits), Ints(cfg.pubValidation.coverLimits))
  }

  /** A well-typed publication as booky.py reads it from its record. */
  function AsRecordPub(p: Validation.Pub): BookyRecords.Pub {
    BookyRecords.Pub(Str(p.title), Int(p.blockHeight), Int(p.blockWidth),
                     Int(p.coverHeight), Int(p.coverWidth), Str(p.color))
  }

  /** Under matching configurations, booky.py accepts the fields of a
      well-typed publication exactly when the pydantic Pub validators do. */
  lemma RecordChecksAgree(cfg: Config.BookyConfig, files: seq<string>, fields: seq<string>, p: Validation.Pub)
    requires forall c :: c in cfg.pubValidation.colors ==> |c| == 3
    ensures BookyRecords.PubSound(SettingsFor(cfg, files, fields), AsRecordPub(p)) <==> Validation.PubValid(cfg, p)
  {
    var colors := cfg.pubValidation.colors;
    assert Str(p.color) in Strs(colors) <==> p.color in colors by {
      if p.color in colors {
        var i :| 0 <= i < |colors| && colors[i] == p.color;
        assert Strs(colors)[i] == Str(p.color);
      }
    }
    var s := SettingsFor(cfg, files, fields);
    assert [AsInt(s.blockLimits[0]), AsInt(s.blockLimits[1])] == cfg.pubValidation.blockLimits;
    assert [AsInt(s.coverLimits[0]), AsInt(s.coverLimits[1])] == cfg.pubValidation.coverLimits;
  }
}
