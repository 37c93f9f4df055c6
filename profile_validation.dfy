/**
 * The validators of a quality profile: unique quality names, the `upgrade_until` rule, the
 * custom-format score bound and the de-duplication of custom-format scores.
 */
module ProfileValidation {
  import opened Wrappers
  import opened ProfileModel

  // ---------------------------------------------------------------------------------------
  // qualities
  // ---------------------------------------------------------------------------------------

  /** No quality name occurs twice, counting bare entries and every group member. */
  predicate NoDuplicateNames(q: seq<Quality>)
  {
    forall i, j :: 0 <= i < j < |q| ==> Members(q[i]) !! Members(q[j])
  }

  /**
   * The error raised when `current` names quality `name` already named by the earlier entry
   * `other`. The source tests `isinstance(quality, str)` twice, so a bare current entry is
   * reported as "both are non-grouped" even when the earlier entry is a group.
   */
  function DuplicateError(name: string, current: Quality, other: Quality): ProfileError
  {
    if current.Bare? then DuplicateUngrouped(name)
    else if other.Group? then DuplicateInGroups(name, current.name, other.name)
    else DuplicateGroupAndUngrouped(name, current.name)
  }

  /** Entry `i` is the first whose names meet an earlier entry's: entry `j < i` also names `n`. */
  ghost predicate FirstClash(q: seq<Quality>, i: int, j: int, n: string)
  {
    0 <= j < i < |q| && NoDuplicateNames(q[..i]) && n in Members(q[i]) && n in Members(q[j])
  }

  /** `e` reports a name shared by the first clashing entry and the earlier entry it clashes with. */
  ghost predicate ReportsDuplicate(q: seq<Quality>, e: ProfileError)
  {
    exists i, j, n :: FirstClash(q, i, j, n) && e == DuplicateError(n, q[i], q[j])
  }

  /** An entry whose names no earlier entry names keeps a duplicate-free prefix duplicate-free. */
  lemma NoDuplicatesExtend(value: seq<Quality>, i: int)
    requires 0 <= i < |value| && NoDuplicateNames(value[..i])
    requires forall j, n :: 0 <= j < i && n in Members(value[i]) ==> n !in Members(value[j])
    ensures NoDuplicateNames(value[..i + 1])
  {
    assert forall j :: 0 <= j < i ==> value[..i + 1][j] == value[..i][j];
  }

  /**
   * `validate_qualities`: walk the entries in order, recording for every quality name the entry
   * that named it; fail on the first name seen twice. Members of a group are visited in the
   * set's unspecified order.
   */
  method ValidateQualities(value: seq<Quality>) returns (r: Result<seq<Quality>, ProfileError>)
    ensures r.Ok? <==> NoDuplicateNames(value)
    ensures r.Ok? ==> r.value == value
    ensures r.Err? ==> ReportsDuplicate(value, r.error)
  {
    var seen: map<string, Quality> := map[];
    ghost var owner: map<string, int> := map[];
    var i := 0;
    while i < |value|
      invariant 0 <= i <= |value|
      invariant NoDuplicateNames(value[..i])
      invariant forall n :: n in seen ==>
        n in owner && 0 <= owner[n] < i && n in Members(value[owner[n]]) && seen[n] == value[owner[n]]
      invariant forall j, n :: 0 <= j < i && n in Members(value[j]) ==> n in seen
    {
      var entry := value[i];
      var names := Members(entry);
      var rest := names;
      while rest != {}
        invariant rest <= names
        invariant forall n :: n in seen ==>
          n in owner && 0 <= owner[n] <= i && n in Members(value[owner[n]]) &&
          seen[n] == value[owner[n]] && (owner[n] == i ==> n !in rest)
        invariant forall j, n :: 0 <= j < i && n in Members(value[j]) ==> n in seen
        invariant forall n :: n in names && n !in rest ==> n in seen && owner[n] == i
        invariant forall j, n :: 0 <= j < i && n in names && n !in rest ==> n !in Members(value[j])
        decreases rest
      {
        var n :| n in rest;
        if n in seen {
          assert FirstClash(value, i, owner[n], n);
          return Err(DuplicateError(n, entry, seen[n]));
        }
        seen := seen[n := entry];
        owner := owner[n := i];
        rest := rest - {n};
      }
      NoDuplicatesExtend(value, i);
      i := i + 1;
    }
    assert value[..|value|] == value;
    return Ok(value);
  }

  // ---------------------------------------------------------------------------------------
  // upgrade_until
  // ---------------------------------------------------------------------------------------

  /** The names of the top-level entries: bare names and group names, but not group members. */
  function TopNames(q: seq<Quality>): set<string>
  {
    set i | 0 <= i < |q| :: q[i].name
  }

  /** The `for ... else` search over the top-level entries for the name `v`. */
  predicate NamesEntry(q: seq<Quality>, v: string)
  {
    q != [] && (q[0].name == v || NamesEntry(q[1..], v))
  }

  lemma {:induction false} NamesEntryIsTopName(q: seq<Quality>, v: string)
    ensures NamesEntry(q, v) <==> v in TopNames(q)
  {
    if q != [] {
      NamesEntryIsTopName(q[1..], v);
      assert forall i :: 1 <= i < |q| ==> q[i] == q[1..][i - 1];
      assert v in TopNames(q[1..]) ==> exists i :: 1 <= i < |q| && q[i].name == v;
    }
  }

  /**
   * `validate_upgrade_until`. `upgradesAllowed` and `qualities` are None when that field
   * failed its own validation, in which case the value passes through.
   */
  function ValidateUpgradeUntil(
    value: Option<string>, upgradesAllowed: Option<bool>, qualities: Option<seq<Quality>>
  ): (r: Result<Option<string>, ProfileError>)
    ensures upgradesAllowed.None? || qualities.None? ==> r == Ok(value)
    ensures upgradesAllowed == Some(false) && qualities.Some? ==> r == Ok(None)
    ensures upgradesAllowed == Some(true) && qualities.Some? ==>
      (r.Ok? <==> value.Some? && value.value != "" && value.value in TopNames(qualities.value))
    ensures upgradesAllowed == Some(true) && r.Ok? ==> r == Ok(value)
    ensures r.Err? && (value.None? || value.value == "") ==> r.error == UpgradeUntilRequired
    ensures r.Err? && value.Some? && value.value != "" ==> r.error == UpgradeUntilNotEnabled(value.value)
  {
    if upgradesAllowed.None? || qualities.None? then Ok(value)
    else if !upgradesAllowed.value then Ok(None)
    else if value.None? || value.value == "" then Err(UpgradeUntilRequired)
    else
      NamesEntryIsTopName(qualities.value, value.value);
      if !NamesEntry(qualities.value, value.value) then Err(UpgradeUntilNotEnabled(value.value))
      else Ok(value)
  }

  // ---------------------------------------------------------------------------------------
  // upgrade_until_custom_format_score
  // ---------------------------------------------------------------------------------------

  /** `minimum` is None when `minimum_custom_format_score` failed its own validation. */
  function ValidateCutoffFormatScore(value: int, minimum: Option<int>): (r: Result<int, ProfileError>)
    ensures r.Err? <==> minimum.Some? && value < minimum.value
    ensures r.Ok? ==> r.value == value
    ensures r.Err? ==> r.error == CutoffScoreBelowMinimum(value, minimum.value)
  {
    if minimum.Some? && value < minimum.value then Err(CutoffScoreBelowMinimum(value, minimum.value))
    else Ok(value)
  }

  // ---------------------------------------------------------------------------------------
  // custom_formats
  // ---------------------------------------------------------------------------------------

  /** The `custom_format_names` dictionary: format name to the score recorded for it. */
  function ScoresByName(kept: seq<FormatScore>): map<string, Option<int>>
  {
    if kept == [] then map[]
    else ScoresByName(kept[..|kept| - 1])[kept[|kept| - 1].name := kept[|kept| - 1].score]
  }

  /**
   * Reference definition of `validate_custom_format` over a prefix of the input: keep an entry
   * whose name is new, drop one repeating a recorded name with the same score, and fail on a
   * recorded name with a different score.
   */
  function DedupFormats(s: seq<FormatScore>): Result<seq<FormatScore>, ProfileError>
  {
    if s == [] then Ok([])
    else
      match DedupFormats(s[..|s| - 1])
      case Err(e) => Err(e)
      case Ok(kept) =>
        var cf := s[|s| - 1];
        var scores := ScoresByName(kept);
        if cf.name !in scores then Ok(kept + [cf])
        else if scores[cf.name] == cf.score then Ok(kept)
        else Err(ConflictingFormatScores(cf.name, scores[cf.name], cf.score))
  }

  lemma {:induction false} DedupErrSticky(s: seq<FormatScore>, i: int)
    requires 0 <= i <= |s|
    requires DedupFormats(s[..i]).Err?
    ensures DedupFormats(s) == DedupFormats(s[..i])
    decreases |s| - i
  {
    if i < |s| {
      assert s[..i + 1][..i] == s[..i];
      DedupErrSticky(s, i + 1);
    } else {
      assert s[..i] == s;
    }
  }

  lemma DedupStep(value: seq<FormatScore>, i: int, kept: seq<FormatScore>)
    requires 0 <= i < |value|
    requires DedupFormats(value[..i]) == Ok(kept)
    ensures value[i].name !in ScoresByName(kept) ==> DedupFormats(value[..i + 1]) == Ok(kept + [value[i]])
    ensures value[i].name in ScoresByName(kept) && ScoresByName(kept)[value[i].name] == value[i].score ==>
      DedupFormats(value[..i + 1]) == Ok(kept)
    ensures value[i].name in ScoresByName(kept) && ScoresByName(kept)[value[i].name] != value[i].score ==>
      DedupFormats(value[..i + 1]) ==
      Err(ConflictingFormatScores(value[i].name, ScoresByName(kept)[value[i].name], value[i].score))
    ensures ScoresByName(kept + [value[i]]) == ScoresByName(kept)[value[i].name := value[i].score]
  {
    assert value[..i + 1][..i] == value[..i];
    assert (kept + [value[i]])[..|kept|] == kept;
  }

  /** `validate_custom_format`, which grows a dictionary of recorded scores and a result list. */
  method ValidateCustomFormats(value: seq<FormatScore>) returns (r: Result<seq<FormatScore>, ProfileError>)
    ensures r == DedupFormats(value)
  {
    var names: map<string, Option<int>> := map[];
    var kept: seq<FormatScore> := [];
    var i := 0;
    while i < |value|
      invariant 0 <= i <= |value|
      invariant DedupFormats(value[..i]) == Ok(kept)
      invariant names == ScoresByName(kept)
    {
      var cf := value[i];
      DedupStep(value, i, kept);
      if cf.name in names {
        var first := names[cf.name];
        if first == cf.score {
          i := i + 1;
          continue;
        }
        DedupErrSticky(value, i + 1);
        assert DedupFormats(value[..i + 1]) == Err(ConflictingFormatScores(cf.name, first, cf.score));
        return Err(ConflictingFormatScores(cf.name, first, cf.score));
      }
      names := names[cf.name := cf.score];
      kept := kept + [cf];
      i := i + 1;
    }
    assert value[..|value|] == value;
    return Ok(kept);
  }

  /** No two entries name the same custom format with different scores. */
  predicate ConsistentScores(s: seq<FormatScore>)
  {
    forall i, j :: 0 <= i < |s| && 0 <= j < |s| && s[i].name == s[j].name ==> s[i].score == s[j].score
  }

  predicate DistinctNames(s: seq<FormatScore>)
  {
    forall i, j :: 0 <= i < j < |s| ==> s[i].name != s[j].name
  }

  /** The position of the first occurrence of `x` in `s`. */
  function IndexOf<T(==)>(s: seq<T>, x: T): (k: nat)
    requires x in s
    ensures k < |s| && s[k] == x
    ensures forall j :: 0 <= j < k ==> s[j] != x
  {
    if s[0] == x then 0 else 1 + IndexOf(s[1..], x)
  }

  /** The elements of `kept` appear in the order of their first occurrences in `s`. */
  ghost predicate FirstOccurrenceOrder<T>(s: seq<T>, kept: seq<T>)
  {
    forall a, b :: 0 <= a < b < |kept| && kept[a] in s && kept[b] in s ==>
      IndexOf(s, kept[a]) < IndexOf(s, kept[b])
  }

  lemma {:induction false} ScoresByNameOfDistinct(kept: seq<FormatScore>)
    requires DistinctNames(kept)
    ensures forall n :: n in ScoresByName(kept) ==> exists k :: 0 <= k < |kept| && kept[k].name == n
    ensures forall k :: 0 <= k < |kept| ==>
      kept[k].name in ScoresByName(kept) && ScoresByName(kept)[kept[k].name] == kept[k].score
  {
    if kept != [] {
      var p := kept[..|kept| - 1];
      assert DistinctNames(p);
      ScoresByNameOfDistinct(p);
      forall k | 0 <= k < |kept| - 1 ensures kept[k] == p[k] && kept[k].name != kept[|kept| - 1].name {
      }
    }
  }

  lemma IndexOfPrefix<T>(s: seq<T>, x: T)
    requires s != [] && x in s[..|s| - 1]
    ensures IndexOf(s, x) == IndexOf(s[..|s| - 1], x)
  {
    var k := IndexOf(s[..|s| - 1], x);
    assert s[k] == x;
    var k' := IndexOf(s, x);
    assert s[..|s| - 1][k'] == x || k' >= |s| - 1;
  }

  /** What the induction hypothesis of `DedupFormatsMeaning` gives for a prefix. */
  ghost predicate DedupInvariant(p: seq<FormatScore>, kept: seq<FormatScore>)
  {
    && ConsistentScores(p)
    && DistinctNames(kept)
    && (forall x :: x in kept <==> x in p)
    && FirstOccurrenceOrder(p, kept)
  }

  lemma NewNameAbsent(p: seq<FormatScore>, cf: FormatScore, kept: seq<FormatScore>)
    requires DistinctNames(kept) && (forall x :: x in kept <==> x in p)
    requires cf.name !in ScoresByName(kept)
    ensures forall i :: 0 <= i < |p| ==> p[i].name != cf.name
  {
    ScoresByNameOfDistinct(kept);
    forall i | 0 <= i < |p| ensures p[i].name != cf.name {
      var k := IndexOf(kept, p[i]);
    }
  }

  lemma AppendKeepsOrder(p: seq<FormatScore>, cf: FormatScore, kept: seq<FormatScore>)
    requires (forall x :: x in kept <==> x in p) && FirstOccurrenceOrder(p, kept)
    requires cf !in p
    ensures FirstOccurrenceOrder(p + [cf], kept + [cf])
  {
    var s := p + [cf];
    var kept' := kept + [cf];
    forall x | x in p ensures IndexOf(s, x) == IndexOf(p, x) && IndexOf(p, x) < |p| {
      assert s[..|s| - 1] == p;
      IndexOfPrefix(s, x);
    }
    assert IndexOf(s, cf) == |p|;
    forall a, b | 0 <= a < b < |kept'| && kept'[a] in s && kept'[b] in s
      ensures IndexOf(s, kept'[a]) < IndexOf(s, kept'[b])
    {
      if b < |kept| {
        assert kept'[a] == kept[a] && kept'[b] == kept[b];
      } else {
        assert kept'[a] in p;
      }
    }
  }

  lemma DedupNewName(p: seq<FormatScore>, cf: FormatScore, kept: seq<FormatScore>)
    requires DedupInvariant(p, kept)
    requires cf.name !in ScoresByName(kept)
    ensures DedupInvariant(p + [cf], kept + [cf])
  {
    var s := p + [cf];
    NewNameAbsent(p, cf, kept);
    assert forall i :: 0 <= i < |p| ==> s[i] == p[i];
    assert ConsistentScores(s);
    assert cf !in p;
    AppendKeepsOrder(p, cf, kept);
  }

  lemma DedupSameScore(p: seq<FormatScore>, cf: FormatScore, kept: seq<FormatScore>)
    requires DedupInvariant(p, kept)
    requires cf.name in ScoresByName(kept) && ScoresByName(kept)[cf.name] == cf.score
    ensures DedupInvariant(p + [cf], kept)
  {
    var s := p + [cf];
    ScoresByNameOfDistinct(kept);
    var w :| 0 <= w < |kept| && kept[w].name == cf.name;
    assert kept[w] == cf;
    assert forall i :: 0 <= i < |p| ==> s[i] == p[i];
    forall i | 0 <= i < |p| && p[i].name == cf.name ensures p[i].score == cf.score {
      var k := IndexOf(kept, p[i]);
      assert k == w;
    }
    assert ConsistentScores(s);
    forall x | x in p ensures IndexOf(s, x) == IndexOf(p, x) {
      IndexOfPrefix(s, x);
    }
  }

  lemma DedupOtherScore(p: seq<FormatScore>, cf: FormatScore, kept: seq<FormatScore>)
    requires DedupInvariant(p, kept)
    requires cf.name in ScoresByName(kept) && ScoresByName(kept)[cf.name] != cf.score
    ensures !ConsistentScores(p + [cf])
  {
    var s := p + [cf];
    ScoresByNameOfDistinct(kept);
    var w :| 0 <= w < |kept| && kept[w].name == cf.name;
    var i := IndexOf(p, kept[w]);
    assert s[i] == kept[w] && s[|p|] == cf;
  }

  /**
   * What `validate_custom_format` promises: it fails exactly when some name carries two
   * different scores; otherwise its output names every format once, holds every input entry,
   * and lists the entries in the order of their first occurrences — the input with later
   * exact duplicates removed.
   */
  lemma {:induction false} DedupFormatsMeaning(s: seq<FormatScore>)
    ensures DedupFormats(s).Ok? <==> ConsistentScores(s)
    ensures DedupFormats(s).Ok? ==> DedupInvariant(s, DedupFormats(s).value)
  {
    if s == [] {
      return;
    }
    var p := s[..|s| - 1];
    var cf := s[|s| - 1];
    assert s == p + [cf];
    DedupFormatsMeaning(p);
    if DedupFormats(p).Err? {
      assert !ConsistentScores(p);
      assert forall i :: 0 <= i < |p| ==> s[i] == p[i];
      return;
    }
    var kept := DedupFormats(p).value;
    var scores := ScoresByName(kept);
    if cf.name !in scores {
      DedupNewName(p, cf, kept);
    } else if scores[cf.name] == cf.score {
      DedupSameScore(p, cf, kept);
    } else {
      DedupOtherScore(p, cf, kept);
    }
  }

  /** De-duplicating a list that names every format once changes nothing. */
  lemma {:induction false} DedupDistinctIsIdentity(s: seq<FormatScore>)
    requires DistinctNames(s)
    ensures DedupFormats(s) == Ok(s)
  {
    if s != [] {
      var p := s[..|s| - 1];
      var cf := s[|s| - 1];
      assert DistinctNames(p);
      DedupDistinctIsIdentity(p);
      ScoresByNameOfDistinct(p);
      forall k | 0 <= k < |p| ensures p[k].name != cf.name {
        assert s[k] == p[k];
      }
      assert cf.name !in ScoresByName(p);
      assert s == p + [cf];
    }
  }
}
