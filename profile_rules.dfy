/**
 * The validation a whole quality profile receives when it is constructed: the constraints of
 * the field types and the field validators, in the order the fields are declared.
 */
module ProfileRules {
  import opened Wrappers
  import opened ProfileModel
  import opened ProfileValidation

  /** What the field types demand of `qualities`: at least one entry and no empty group. */
  predicate WellFormedQualities(q: seq<Quality>)
  {
    |q| >= 1 && forall i :: 0 <= i < |q| && q[i].Group? ==> q[i].members != {}
  }

  /** A quality profile as it stands once validated. */
  predicate ValidProfile(p: Profile)
  {
    && WellFormedQualities(p.qualities)
    && NoDuplicateNames(p.qualities)
    && p.cutoffFormatScore >= p.minFormatScore
    && p.minUpgradeFormatScore >= 1
    && DistinctNames(p.customFormats)
    && if p.upgradesAllowed then p.upgradeUntil.Some? && p.upgradeUntil.value != "" && p.upgradeUntil.value in TopNames(p.qualities)
       else p.upgradeUntil.None?
  }

  /** What a profile must satisfy to be accepted at all. */
  predicate Acceptable(p: Profile)
  {
    && WellFormedQualities(p.qualities)
    && NoDuplicateNames(p.qualities)
    && p.cutoffFormatScore >= p.minFormatScore
    && p.minUpgradeFormatScore >= 1
    && ConsistentScores(p.customFormats)
    && (p.upgradesAllowed ==> p.upgradeUntil.Some? && p.upgradeUntil.value != "" && p.upgradeUntil.value in TopNames(p.qualities))
  }

  /**
   * The validation of a `QualityProfile`'s fields in declaration order: the type constraints
   * and `validate_qualities` on `qualities`, the score bound, the increment's lower bound of
   * 1, `validate_custom_format`, then `validate_upgrade_until`. The first failure is reported.
   * An accepted profile has its custom formats de-duplicated and `upgrade_until` cleared when
   * upgrades are off; it is then valid, and validating a valid profile returns it unchanged.
   */
  method ValidateProfile(p: Profile) returns (r: Result<Profile, ProfileError>)
    ensures r.Ok? <==> Acceptable(p)
    ensures r.Ok? ==> ValidProfile(r.value)
    ensures r.Ok? ==> DedupFormats(p.customFormats).Ok? &&
                      r.value == p.(customFormats := DedupFormats(p.customFormats).value,
                                    upgradeUntil := if p.upgradesAllowed then p.upgradeUntil else None)
    ensures ValidProfile(p) ==> r == Ok(p)
  {
    if |p.qualities| == 0 {
      return Err(NoQualities);
    }
    if exists i :: 0 <= i < |p.qualities| && p.qualities[i].Group? && p.qualities[i].members == {} {
      var i :| 0 <= i < |p.qualities| && p.qualities[i].Group? && p.qualities[i].members == {};
      return Err(EmptyGroup(p.qualities[i].name));
    }
    var qualities := ValidateQualities(p.qualities);
    if qualities.Err? {
      return Err(qualities.error);
    }
    var cutoffScore := ValidateCutoffFormatScore(p.cutoffFormatScore, Some(p.minFormatScore));
    if cutoffScore.Err? {
      return Err(cutoffScore.error);
    }
    if p.minUpgradeFormatScore < 1 {
      return Err(IncrementBelowOne(p.minUpgradeFormatScore));
    }
    DedupFormatsMeaning(p.customFormats);
    var formats := ValidateCustomFormats(p.customFormats);
    if formats.Err? {
      return Err(formats.error);
    }
    var upgradeUntil := ValidateUpgradeUntil(p.upgradeUntil, Some(p.upgradesAllowed), Some(p.qualities));
    if upgradeUntil.Err? {
      return Err(upgradeUntil.error);
    }
    if ValidProfile(p) {
      DedupDistinctIsIdentity(p.customFormats);
    }
    return Ok(p.(customFormats := formats.value, upgradeUntil := upgradeUntil.value));
  }
}
