/**
 * A Sonarr quality definition: the bitrate bounds, in megabytes per minute, of one quality
 * level, the rules `QualityDefinition` enforces whenever one is constructed, and its mapping
 * from the remote's `/api/v3/qualitydefinition` JSON.
 */
module QualityDefinitions {
  import opened Wrappers
  import opened Dicts

  /** `QUALITYDEFINITION_PREFERRED_MAX`: a `preferred` at this bound or above means unbounded. */
  const PreferredMax: real := 1000.0

  /** `QUALITYDEFINITION_MAX`: a `max` at this bound or above means unbounded. */
  const DefinitionMax: real := 1000.0

  /** A validated quality definition; an unbounded `preferred` or `max` is `None`. */
  datatype Definition = Definition(title: Option<string>, min: real, preferred: Option<real>, max: Option<real>)

  /** The validation errors of a quality definition, one per failing field. */
  datatype DefinitionError =
    | MinOutOfRange(min: real)
    | PreferredOutOfRange(preferred: real)
    | PreferredTooLow(preferred: real, min: real)
    | MaxOutOfRange(max: real)
    | MaxTooLow(max: real, preferred: real)

  /**
   * `validate_preferred`: an absent or sentinel `preferred` normalises to unbounded; a finite
   * one must be at least 1 above `min`, unless `min` itself failed validation (`None` here).
   */
  function ValidatePreferred(value: Option<real>, min: Option<real>): (r: Result<Option<real>, DefinitionError>)
    ensures value.None? || value.value >= PreferredMax ==> r == Ok(None)
    ensures r.Err? <==> value.Some? && value.value < PreferredMax && min.Some? && value.value - min.value < 1.0
    ensures r.Ok? && value.Some? && value.value < PreferredMax ==> r == Ok(value)
  {
    if value.None? || value.value >= PreferredMax then Ok(None)
    else if min.Some? && value.value - min.value < 1.0 then Err(PreferredTooLow(value.value, min.value))
    else Ok(value)
  }

  /**
   * `validate_max`: an absent or sentinel `max` normalises to unbounded; a finite one must be
   * at least 1 above `preferred`, read as 1000 when `preferred` is unbounded, unless
   * `preferred` itself failed validation. `preferred` is `None` when it failed and
   * `Some(None)` when it is unbounded.
   */
  function ValidateMax(value: Option<real>, preferred: Option<Option<real>>): (r: Result<Option<real>, DefinitionError>)
    ensures value.None? || value.value >= DefinitionMax ==> r == Ok(None)
    ensures preferred == Some(None) && value.Some? && value.value < DefinitionMax ==> r.Err?
    ensures r.Err? <==>
      && value.Some? && value.value < DefinitionMax && preferred.Some?
      && value.value - (if preferred.value.Some? then preferred.value.value else PreferredMax) < 1.0
    ensures r.Ok? && value.Some? && value.value < DefinitionMax ==> r == Ok(value)
  {
    if value.None? || value.value >= DefinitionMax then Ok(None)
    else if preferred.None? then Ok(value)
    else
      var p := if preferred.value.Some? then preferred.value.value else PreferredMax;
      if value.value - p < 1.0 then Err(MaxTooLow(value.value, p)) else Ok(value)
  }

  /** The value a field leaves in pydantic's `values` for the later validators: none if it failed. */
  function Validated<T>(r: Result<T, DefinitionError>): Option<T>
  {
    if r.Ok? then Some(r.value) else None
  }

  function Errors<T>(r: Result<T, DefinitionError>): seq<DefinitionError>
  {
    if r.Err? then [r.error] else []
  }

  /** The `min` field: between 0 and 999. */
  function CheckMin(min: real): Result<real, DefinitionError>
  {
    if 0.0 <= min <= DefinitionMax - 1.0 then Ok(min) else Err(MinOutOfRange(min))
  }

  /** The `preferred` field: between 0 and 1000 when set, then `validate_preferred`. */
  function CheckPreferred(preferred: Option<real>, min: Option<real>): Result<Option<real>, DefinitionError>
  {
    if preferred.Some? && !(0.0 <= preferred.value <= PreferredMax) then Err(PreferredOutOfRange(preferred.value))
    else ValidatePreferred(preferred, min)
  }

  /** The `max` field: between 1 and 1000 when set, then `validate_max`. */
  function CheckMax(max: Option<real>, preferred: Option<Option<real>>): Result<Option<real>, DefinitionError>
  {
    if max.Some? && !(1.0 <= max.value <= DefinitionMax) then Err(MaxOutOfRange(max.value))
    else ValidateMax(max, preferred)
  }

  /**
   * `QualityDefinition(title=…, min=…, preferred=…, max=…)`: the fields are validated in
   * declaration order, each validator seeing the fields before it that passed, and every
   * failing field is reported.
   */
  function NewDefinition(title: Option<string>, min: real, preferred: Option<real>, max: Option<real>)
    : (r: Result<Definition, seq<DefinitionError>>)
    ensures r.Err? ==> |r.error| >= 1
    ensures r.Ok? ==> r.value.title == title && r.value.min == min
  {
    var m := CheckMin(min);
    var p := CheckPreferred(preferred, Validated(m));
    var x := CheckMax(max, Validated(p));
    if m.Ok? && p.Ok? && x.Ok? then Ok(Definition(title, m.value, p.value, x.value))
    else Err(Errors(m) + Errors(p) + Errors(x))
  }

  /**
   * The example in the documentation of the quality settings (`min` 2, `preferred` unbounded,
   * `max` 100) is refused: with `preferred` unbounded, `validate_max` measures `max` against
   * 1000.
   */
  lemma DocumentedExampleRefused()
    ensures NewDefinition(None, 2.0, None, Some(100.0)) == Err([MaxTooLow(100.0, PreferredMax)])
  {
    assert CheckMin(2.0) == Ok(2.0);
    assert CheckPreferred(None, Some(2.0)) == Ok(None);
    var e := MaxTooLow(100.0, PreferredMax);
    assert CheckMax(Some(100.0), Some(None)) == Err(e);
    assert [] + [] + [e] == [e];
  }

  /** Below the sentinel a bound is kept; at or above it the bound is unbounded. */
  function Bounded(v: Option<real>, sentinel: real): (r: Option<real>)
  {
    if v.Some? && v.value < sentinel then v else None
  }

  /**
   * The bounds on a quality definition, stated directly: `min` in [0, 999]; `preferred`, when
   * set, in [0, 1000] and, below 1000, at least `min + 1`; `max`, when set, in [1, 1000] and,
   * below 1000, at least 1 above a `preferred` that is itself below 1000.
   */
  predicate Admissible(min: real, preferred: Option<real>, max: Option<real>)
  {
    && 0.0 <= min <= 999.0
    && (preferred.Some? ==> 0.0 <= preferred.value <= 1000.0 && (preferred.value < 1000.0 ==> min + 1.0 <= preferred.value))
    && (max.Some? ==>
          && 1.0 <= max.value <= 1000.0
          && (max.value < 1000.0 ==> preferred.Some? && preferred.value < 1000.0 && preferred.value + 1.0 <= max.value))
  }

  /** A definition as validation leaves it: admissible, with no sentinel bound left in it. */
  predicate Normal(d: Definition)
  {
    && Admissible(d.min, d.preferred, d.max)
    && (d.preferred.Some? ==> d.preferred.value < PreferredMax)
    && (d.max.Some? ==> d.max.value < DefinitionMax)
  }

  /**
   * Construction succeeds exactly for admissible bounds, and then normalises the sentinels:
   * the result's finite bounds satisfy `min + 1 <= preferred` and `preferred + 1 <= max`, and
   * a finite `max` never comes with an unbounded `preferred`.
   */
  lemma NewDefinitionAccepts(title: Option<string>, min: real, preferred: Option<real>, max: Option<real>)
    ensures NewDefinition(title, min, preferred, max).Ok? <==> Admissible(min, preferred, max)
    ensures NewDefinition(title, min, preferred, max).Ok? ==>
      && NewDefinition(title, min, preferred, max).value ==
           Definition(title, min, Bounded(preferred, PreferredMax), Bounded(max, DefinitionMax))
      && Normal(NewDefinition(title, min, preferred, max).value)
  {
    var m := CheckMin(min);
    var p := CheckPreferred(preferred, Validated(m));
    var x := CheckMax(max, Validated(p));
    if Admissible(min, preferred, max) {
      assert m.Ok? && p.Ok?;
      assert p.value == Bounded(preferred, PreferredMax);
    }
  }

  /** Validating a definition that is already normal gives it back unchanged. */
  lemma NewDefinitionIdempotent(d: Definition)
    requires Normal(d)
    ensures NewDefinition(d.title, d.min, d.preferred, d.max) == Ok(d)
  {
    NewDefinitionAccepts(d.title, d.min, d.preferred, d.max);
  }

  // ---------------------------------------------------------------------------------------
  // The remote representation
  // ---------------------------------------------------------------------------------------

  /** The `quality` object of a remote quality definition. */
  datatype QualityRef = QualityRef(id: int, name: string)

  /**
   * A remote quality definition as JSON; `maxSize` is `None` when absent or `null`, and
   * `weight` stands for the fields this model never changes.
   */
  datatype RemoteDefinition = RemoteDefinition(
    id: int,
    quality: QualityRef,
    title: string,
    minSize: real,
    preferredSize: Option<real>,
    maxSize: Option<real>,
    weight: int)

  /** `from_remote`'s title: unset when the remote title is just the quality's name. */
  function TitleFromRemote(title: string, name: string): (t: Option<string>)
    ensures t.None? <==> title == name
    ensures t.Some? ==> t.value == title
  {
    if title != name then Some(title) else None
  }

  /** The title encoder `v or definition_name`: an unset or empty title is sent as the name. */
  function EncodeTitle(title: Option<string>, name: string): (s: string)
    ensures title.Some? && title.value != "" ==> s == title.value
    ensures title.None? || title.value == "" ==> s == name
  {
    if title.Some? && title.value != "" then title.value else name
  }

  /** The title a definition keeps once it has been to the remote and back. */
  function NormalTitle(title: Option<string>, name: string): Option<string>
  {
    if title.Some? && title.value != "" && title.value != name then title else None
  }

  /** A remote title survives decoding then encoding exactly when it is not the empty string standing for a non-empty name. */
  lemma TitleRoundTrip(title: string, name: string)
    ensures EncodeTitle(TitleFromRemote(title, name), name) == title <==> title != "" || name == ""
  {
  }

  /** A local title survives encoding then decoding exactly when it is already in normal form. */
  lemma TitleNormalises(title: Option<string>, name: string)
    ensures TitleFromRemote(EncodeTitle(title, name), name) == NormalTitle(title, name)
    ensures TitleFromRemote(EncodeTitle(title, name), name) == title <==> NormalTitle(title, name) == title
  {
  }

  /**
   * One entry of `from_remote`: the title mapped as above, `minSize`, `preferredSize` and
   * `maxSize` as `min`, `preferred` and `max`, all validated as on construction.
   */
  function DefinitionFromRemote(j: RemoteDefinition): (r: Result<Definition, seq<DefinitionError>>)
    ensures r.Ok? ==> (r.value.title.None? <==> j.title == j.quality.name)
    ensures r.Ok? && j.maxSize.None? ==> r.value.max.None?
  {
    NewDefinition(TitleFromRemote(j.title, j.quality.name), j.minSize, j.preferredSize, j.maxSize)
  }

  /**
   * A dictionary comprehension whose values may raise: the entries are evaluated in order, the
   * first error propagates, and otherwise a later entry for a key replaces the earlier value.
   */
  function Collect<V, E>(entries: seq<(string, Result<V, E>)>): (r: Result<seq<(string, V)>, E>)
  {
    if entries == [] then Ok([])
    else
      var d :- Collect(entries[..|entries| - 1]);
      var last := entries[|entries| - 1];
      var v :- last.1;
      Ok(Assign(d, last.0, v))
  }

  /** A comprehension fails exactly when one of its values does. */
  lemma {:induction false} CollectFails<V, E>(entries: seq<(string, Result<V, E>)>)
    ensures Collect(entries).Err? <==> exists i :: 0 <= i < |entries| && entries[i].1.Err?
  {
    if entries != [] {
      var front := entries[..|entries| - 1];
      var last := |entries| - 1;
      CollectFails(front);
      if Collect(front).Err? {
        var i :| 0 <= i < |front| && front[i].1.Err?;
        assert entries[i] == front[i];
      } else if entries[last].1.Ok? {
        forall i | 0 <= i < |entries| ensures entries[i].1.Ok? {
          if i < last { assert entries[i] == front[i]; }
        }
      }
    }
  }

  /** A comprehension that succeeds is its last entry assigned over the comprehension of the rest. */
  lemma CollectLast<V, E>(entries: seq<(string, Result<V, E>)>)
    requires entries != [] && Collect(entries).Ok?
    ensures Collect(entries[..|entries| - 1]).Ok? && entries[|entries| - 1].1.Ok?
    ensures Collect(entries).value ==
      Assign(Collect(entries[..|entries| - 1]).value, entries[|entries| - 1].0, entries[|entries| - 1].1.value)
  {
  }

  /** A comprehension that succeeds holds each of its keys once, and no other. */
  lemma {:induction false} CollectKeys<V, E>(entries: seq<(string, Result<V, E>)>)
    requires Collect(entries).Ok?
    ensures DistinctKeys(Collect(entries).value)
    ensures KeySet(Collect(entries).value) == KeySet(entries)
  {
    if entries != [] {
      CollectLast(entries);
      CollectKeys(entries[..|entries| - 1]);
      CollectDistinctStep(entries);
      CollectKeySetStep(entries);
    }
  }

  /** Assigning the last entry of a comprehension keeps its keys distinct. */
  lemma CollectDistinctStep<V, E>(entries: seq<(string, Result<V, E>)>)
    requires entries != [] && Collect(entries).Ok?
    requires Collect(entries[..|entries| - 1]).Ok?
    requires DistinctKeys(Collect(entries[..|entries| - 1]).value)
    ensures DistinctKeys(Collect(entries).value)
  {
    var last := entries[|entries| - 1];
    CollectLast(entries);
    AssignDistinct(Collect(entries[..|entries| - 1]).value, last.0, last.1.value);
  }

  /** Assigning the last entry of a comprehension adds its key to the keys of the rest. */
  lemma CollectKeySetStep<V, E>(entries: seq<(string, Result<V, E>)>)
    requires entries != [] && Collect(entries).Ok?
    requires Collect(entries[..|entries| - 1]).Ok?
    requires KeySet(Collect(entries[..|entries| - 1]).value) == KeySet(entries[..|entries| - 1])
    ensures KeySet(Collect(entries).value) == KeySet(entries)
  {
    var front := entries[..|entries| - 1];
    var last := entries[|entries| - 1];
    var d := Collect(front).value;
    CollectLast(entries);
    calc {
      KeySet(Collect(entries).value);
      KeySet(Assign(d, last.0, last.1.value));
      KeySet(d) + {last.0};
      KeySet(front) + {last.0};
      { KeySetSnoc(front, last); }
      KeySet(front + [last]);
      { assert entries == front + [last]; }
      KeySet(entries);
    }
  }

  /** In a comprehension that succeeds, each key holds the value of its last entry. */
  lemma {:induction false} CollectValues<V, E>(entries: seq<(string, Result<V, E>)>, i: int)
    requires Collect(entries).Ok?
    requires 0 <= i < |entries|
    requires forall k :: i < k < |entries| ==> entries[k].0 != entries[i].0
    ensures entries[i].1.Ok?
    ensures Get(Collect(entries).value, entries[i].0) == Some(entries[i].1.value)
    decreases |entries|, 1
  {
    if i == |entries| - 1 {
      CollectLookup(entries, entries[i].0);
    } else {
      CollectValuesEarlier(entries, i);
    }
  }

  /** The case of `CollectValues` where a later entry exists, all with other keys. */
  lemma {:induction false} CollectValuesEarlier<V, E>(entries: seq<(string, Result<V, E>)>, i: int)
    requires Collect(entries).Ok?
    requires 0 <= i < |entries| - 1
    requires forall k :: i < k < |entries| ==> entries[k].0 != entries[i].0
    ensures entries[i].1.Ok?
    ensures Get(Collect(entries).value, entries[i].0) == Some(entries[i].1.value)
    decreases |entries|, 0
  {
    var front := entries[..|entries| - 1];
    CollectLookup(entries, entries[i].0);
    assert front[i] == entries[i];
    forall k | i < k < |front| ensures front[k].0 != front[i].0 {
      assert front[k] == entries[k];
    }
    CollectValues(front, i);
  }

  /** Looking a key up in a successful comprehension: the last entry's key, or a lookup in the rest. */
  lemma CollectLookup<V, E>(entries: seq<(string, Result<V, E>)>, key: string)
    requires entries != [] && Collect(entries).Ok?
    ensures Collect(entries[..|entries| - 1]).Ok? && entries[|entries| - 1].1.Ok?
    ensures Get(Collect(entries).value, key) ==
      if key == entries[|entries| - 1].0 then Some(entries[|entries| - 1].1.value)
      else Get(Collect(entries[..|entries| - 1]).value, key)
  {
    var last := entries[|entries| - 1];
    CollectLast(entries);
    AssignGet(Collect(entries[..|entries| - 1]).value, last.0, last.1.value, key);
  }

  /** The entries of `from_remote`'s comprehension: each quality name with its decoded definition. */
  function RemoteEntries(js: seq<RemoteDefinition>): (entries: seq<(string, Result<Definition, seq<DefinitionError>>)>)
    ensures |entries| == |js|
    ensures forall i :: 0 <= i < |js| ==> entries[i] == (js[i].quality.name, DefinitionFromRemote(js[i]))
  {
    seq(|js|, i requires 0 <= i < |js| => (js[i].quality.name, DefinitionFromRemote(js[i])))
  }

  /**
   * `SonarrQualitySettingsConfig.from_remote`: the definitions keyed by quality name, in remote
   * order, a later entry for the same name replacing the value of an earlier one; the first
   * entry that fails validation is the error.
   */
  function FromRemote(js: seq<RemoteDefinition>): (r: Result<seq<(string, Definition)>, seq<DefinitionError>>)
  {
    Collect(RemoteEntries(js))
  }

  /** The quality names of the remote definitions. */
  function RemoteNames(js: seq<RemoteDefinition>): set<string>
  {
    set i | 0 <= i < |js| :: js[i].quality.name
  }

  /** `from_remote` fails exactly when some remote entry does not validate. */
  lemma FromRemoteFails(js: seq<RemoteDefinition>)
    ensures FromRemote(js).Err? <==> exists i :: 0 <= i < |js| && DefinitionFromRemote(js[i]).Err?
  {
    var entries := RemoteEntries(js);
    CollectFails(entries);
    assert FromRemote(js) == Collect(entries);
  }

  /** A successful `from_remote` holds each remote quality name once, and no other. */
  lemma FromRemoteKeys(js: seq<RemoteDefinition>)
    requires FromRemote(js).Ok?
    ensures DistinctKeys(FromRemote(js).value)
    ensures KeySet(FromRemote(js).value) == RemoteNames(js)
  {
    var entries := RemoteEntries(js);
    assert FromRemote(js) == Collect(entries);
    CollectKeys(entries);
    forall n | n in RemoteNames(js) ensures n in KeySet(entries) {
      var i :| 0 <= i < |js| && js[i].quality.name == n;
      assert entries[i].0 == n;
    }
  }

  /** After a successful `from_remote`, each name holds the definition decoded from its last remote entry. */
  lemma FromRemoteValues(js: seq<RemoteDefinition>, i: int)
    requires FromRemote(js).Ok?
    requires 0 <= i < |js|
    requires forall k :: i < k < |js| ==> js[k].quality.name != js[i].quality.name
    ensures DefinitionFromRemote(js[i]).Ok?
    ensures Get(FromRemote(js).value, js[i].quality.name) == Some(DefinitionFromRemote(js[i]).value)
  {
    var entries := RemoteEntries(js);
    assert FromRemote(js) == Collect(entries);
    CollectValues(entries, i);
  }
}
