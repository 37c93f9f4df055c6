/**
 * `SonarrQualitySettingsConfig`: the quality definitions managed on a Sonarr instance,
 * optionally seeded from a TRaSH-Guides quality-size file, and the PUT calls that bring the
 * remote definitions in line with them.
 */
module QualitySettingsConfig {
  import opened Wrappers
  import opened Dicts
  import opened Text
  import opened QualityDefinitions

  /** One entry of a quality-size file's `qualities`. */
  datatype DatasetEntry = DatasetEntry(quality: string, min: real, preferred: Option<real>, max: Option<real>)

  /** A TRaSH-Guides quality-size file: its `trash_id` and its `qualities`. */
  datatype DatasetFile = DatasetFile(trashId: string, qualities: seq<DatasetEntry>)

  datatype RenderError =
    | TrashIdNotFound(trashId: string)
    | InvalidDefinition(quality: string, errors: seq<DefinitionError>)

  /** The definition `_render` builds from a dataset entry: no title, the entry's bounds, validated. */
  function FromDataset(e: DatasetEntry): Result<Definition, seq<DefinitionError>>
  {
    NewDefinition(None, e.min, e.preferred, e.max)
  }

  /** The dataset entries, each with the definition it would build. */
  function DatasetDefinitions(es: seq<DatasetEntry>): (entries: seq<(string, Result<Definition, seq<DefinitionError>>)>)
    ensures |entries| == |es|
    ensures forall i :: 0 <= i < |es| ==> entries[i] == (es[i].quality, FromDataset(es[i]))
  {
    seq(|es|, i requires 0 <= i < |es| => (es[i].quality, FromDataset(es[i])))
  }

  /** The position of the first file whose lower-cased `trash_id` is `id`, if any. */
  function FirstFile(files: seq<DatasetFile>, id: string): (r: Option<nat>)
    ensures r.Some? ==> r.value < |files| && Lower(files[r.value].trashId) == id
    ensures r.Some? ==> forall j :: 0 <= j < r.value ==> Lower(files[j].trashId) != id
    ensures r.None? ==> forall j :: 0 <= j < |files| ==> Lower(files[j].trashId) != id
  {
    if files == [] then None
    else if Lower(files[0].trashId) == id then Some(0)
    else
      var r := FirstFile(files[1..], id);
      assert forall j :: 1 <= j < |files| ==> files[j] == files[1..][j - 1];
      if r.Some? then Some(r.value + 1) else None
  }

  /** The definitions after merging dataset entries in order, and the error that ended the merge, if any. */
  datatype Merged = Merged(definitions: seq<(string, Definition)>, error: Option<RenderError>)

  /**
   * The merge of `_render`: each dataset entry whose quality is not yet defined is added, in
   * dataset order; an entry for a quality already defined, locally or by an earlier entry, is
   * skipped; the first entry that fails validation ends the merge, after the additions before it.
   */
  function Merge(defs: seq<(string, Definition)>, entries: seq<(string, Result<Definition, seq<DefinitionError>>)>): Merged
  {
    if entries == [] then Merged(defs, None)
    else
      var m := Merge(defs, entries[..|entries| - 1]);
      var last := entries[|entries| - 1];
      if m.error.Some? || last.0 in KeySet(m.definitions) then m
      else if last.1.Err? then Merged(m.definitions, Some(InvalidDefinition(last.0, last.1.error)))
      else Merged(m.definitions + [(last.0, last.1.value)], None)
  }

  lemma MergeStep(defs: seq<(string, Definition)>, entries: seq<(string, Result<Definition, seq<DefinitionError>>)>, i: int)
    requires 0 <= i < |entries|
    ensures Merge(defs, entries[..i + 1]) ==
      var m := Merge(defs, entries[..i]);
      if m.error.Some? || entries[i].0 in KeySet(m.definitions) then m
      else if entries[i].1.Err? then Merged(m.definitions, Some(InvalidDefinition(entries[i].0, entries[i].1.error)))
      else Merged(m.definitions + [(entries[i].0, entries[i].1.value)], None)
  {
    assert entries[..i + 1][..i] == entries[..i];
  }

  lemma {:induction false} MergeErrSticky(defs: seq<(string, Definition)>, entries: seq<(string, Result<Definition, seq<DefinitionError>>)>, i: int)
    requires 0 <= i <= |entries|
    requires Merge(defs, entries[..i]).error.Some?
    ensures Merge(defs, entries) == Merge(defs, entries[..i])
    decreases |entries| - i
  {
    if i < |entries| {
      MergeStep(defs, entries, i);
      MergeErrSticky(defs, entries, i + 1);
    } else {
      assert entries[..i] == entries;
    }
  }

  /**
   * The merge leaves every existing definition where and as it was, only appends, and
   * appends only qualities that were not defined; distinct keys stay distinct.
   */
  lemma {:induction false} MergeKeepsExisting(defs: seq<(string, Definition)>, entries: seq<(string, Result<Definition, seq<DefinitionError>>)>)
    ensures |defs| <= |Merge(defs, entries).definitions|
    ensures Merge(defs, entries).definitions[..|defs|] == defs
    ensures forall i :: |defs| <= i < |Merge(defs, entries).definitions| ==> Merge(defs, entries).definitions[i].0 !in KeySet(defs)
    ensures DistinctKeys(defs) ==> DistinctKeys(Merge(defs, entries).definitions)
  {
    if entries != [] {
      var front := entries[..|entries| - 1];
      MergeKeepsExisting(defs, front);
      var m := Merge(defs, front);
      var r := Merge(defs, entries);
      if r.definitions != m.definitions {
        assert r.definitions == m.definitions + [(entries[|entries| - 1].0, entries[|entries| - 1].1.value)];
        assert forall i :: 0 <= i < |m.definitions| ==> r.definitions[i] == m.definitions[i];
        assert forall i :: 0 <= i < |defs| ==> defs[i].0 in KeySet(m.definitions) by {
          forall i | 0 <= i < |defs| ensures defs[i].0 in KeySet(m.definitions) {
            assert m.definitions[i] == defs[i];
          }
        }
      }
    }
  }

  /**
   * Each definition the merge adds is built from the first dataset entry for its quality.
   */
  lemma {:induction false} MergeAddsFirst(defs: seq<(string, Definition)>, entries: seq<(string, Result<Definition, seq<DefinitionError>>)>, i: int)
    requires |defs| <= i < |Merge(defs, entries).definitions|
    ensures exists k :: 0 <= k < |entries| && entries[k].0 == Merge(defs, entries).definitions[i].0 &&
                        entries[k].1 == Ok(Merge(defs, entries).definitions[i].1) &&
                        forall j :: 0 <= j < k ==> entries[j].0 != entries[k].0
  {
    var front := entries[..|entries| - 1];
    var m := Merge(defs, front);
    var r := Merge(defs, entries);
    MergeKeepsExisting(defs, front);
    if i < |m.definitions| {
      MergeAddsFirst(defs, front, i);
      var k :| 0 <= k < |front| && front[k].0 == m.definitions[i].0 && front[k].1 == Ok(m.definitions[i].1) &&
               forall j :: 0 <= j < k ==> front[j].0 != front[k].0;
      assert r.definitions[i] == m.definitions[i];
      assert entries[k] == front[k];
      assert forall j :: 0 <= j < k ==> entries[j] == front[j];
    } else {
      var k := |entries| - 1;
      assert r.definitions[i] == (entries[k].0, entries[k].1.value);
      forall j | 0 <= j < k ensures entries[j].0 != entries[k].0 {
        MergeCovers(defs, front, j);
      }
    }
  }

  /**
   * Once the merge has passed a dataset entry without failing, that entry's quality is defined.
   */
  lemma {:induction false} MergeCovers(defs: seq<(string, Definition)>, entries: seq<(string, Result<Definition, seq<DefinitionError>>)>, j: int)
    requires 0 <= j < |entries|
    requires Merge(defs, entries).error.None?
    ensures entries[j].0 in KeySet(Merge(defs, entries).definitions)
  {
    var front := entries[..|entries| - 1];
    var m := Merge(defs, front);
    var r := Merge(defs, entries);
    if j < |front| {
      MergeCovers(defs, front, j);
      assert entries[j] == front[j];
    }
    assert forall i :: 0 <= i < |m.definitions| ==> r.definitions[i] == m.definitions[i];
    assert forall x :: x in KeySet(m.definitions) ==> x in KeySet(r.definitions) by {
      forall x | x in KeySet(m.definitions) ensures x in KeySet(r.definitions) {
        var i :| 0 <= i < |m.definitions| && m.definitions[i].0 == x;
        assert r.definitions[i].0 == x;
      }
    }
    if entries[j].0 !in KeySet(m.definitions) {
      assert r.definitions[|r.definitions| - 1].0 == entries[j].0;
    }
  }

  /** Every quality defined before the merge is still defined after it. */
  lemma KeysKept(defs: seq<(string, Definition)>, entries: seq<(string, Result<Definition, seq<DefinitionError>>)>)
    ensures KeySet(defs) <= KeySet(Merge(defs, entries).definitions)
  {
    MergeKeepsExisting(defs, entries);
    var r := Merge(defs, entries).definitions;
    forall x | x in KeySet(defs) ensures x in KeySet(r) {
      var i :| 0 <= i < |defs| && defs[i].0 == x;
      assert r[..|defs|][i] == defs[i];
    }
  }

  /**
   * A merge that fails, fails at a dataset entry that does not validate, for a quality neither
   * defined before nor named by an earlier entry.
   */
  lemma {:induction false} MergeFailsAt(defs: seq<(string, Definition)>, entries: seq<(string, Result<Definition, seq<DefinitionError>>)>)
    requires Merge(defs, entries).error.Some?
    ensures exists k :: 0 <= k < |entries| && entries[k].1.Err? && entries[k].0 !in KeySet(defs) &&
                        forall j :: 0 <= j < k ==> entries[j].0 != entries[k].0
  {
    var front := entries[..|entries| - 1];
    var k := |entries| - 1;
    var m := Merge(defs, front);
    assert forall i :: 0 <= i < |front| ==> entries[i] == front[i];
    if m.error.Some? {
      MergeFailsAt(defs, front);
    } else {
      KeysKept(defs, front);
      forall j | 0 <= j < k ensures entries[j].0 != entries[k].0 {
        MergeCovers(defs, front, j);
      }
    }
  }

  /**
   * A dataset entry that does not validate, for a quality neither defined before nor named by
   * an earlier entry, makes the merge fail.
   */
  lemma MergeFailsIf(defs: seq<(string, Definition)>, entries: seq<(string, Result<Definition, seq<DefinitionError>>)>, k: int)
    requires 0 <= k < |entries| && entries[k].1.Err? && entries[k].0 !in KeySet(defs)
    requires forall j :: 0 <= j < k ==> entries[j].0 != entries[k].0
    ensures Merge(defs, entries).error.Some?
  {
    var r := Merge(defs, entries);
    if r.error.None? {
      MergeCovers(defs, entries, k);
      MergeKeepsExisting(defs, entries);
      var i :| 0 <= i < |r.definitions| && r.definitions[i].0 == entries[k].0;
      MergeAddsFirst(defs, entries, i);
    }
  }

  /** The PUT of one remote quality definition. */
  datatype DefinitionPut = DefinitionPut(id: int, body: RemoteDefinition)

  /** The KeyErrors of `update_remote`: no remote definition, or no remote id, for a local name. */
  datatype SyncError = NoRemoteDefinition(name: string) | NoDefinitionId(name: string)

  /** `remote_definitions_json`: the remote JSON keyed by definition id. */
  function DefinitionsById(js: seq<RemoteDefinition>): (byId: seq<(int, RemoteDefinition)>)
    ensures DistinctKeys(byId)
    ensures forall i :: 0 <= i < |byId| ==> byId[i].1 in js && byId[i].1.id == byId[i].0
  {
    var pairs := seq(|js|, i requires 0 <= i < |js| => (js[i].id, js[i]));
    DictOfWithin(pairs);
    DictOf(pairs)
  }

  /** `definition_ids`: the definition id of each quality name. */
  function DefinitionIds(byId: seq<(int, RemoteDefinition)>): (ids: seq<(string, int)>)
    ensures DistinctKeys(ids)
    ensures forall i :: 0 <= i < |ids| ==> exists a :: 0 <= a < |byId| && ids[i] == (byId[a].1.quality.name, byId[a].0)
  {
    var pairs := seq(|byId|, i requires 0 <= i < |byId| => (byId[i].1.quality.name, byId[i].0));
    DictOfWithin(pairs);
    DictOf(pairs)
  }

  /**
   * The body `{**remote_json, **remote_attrs}`: the remote JSON with each attribute the local
   * definition changes replaced by its encoded local value.
   */
  function Overlay(j: RemoteDefinition, name: string, local: Definition, remote: Definition): RemoteDefinition
  {
    j.(title := if local.title != remote.title then EncodeTitle(local.title, name) else j.title,
       minSize := if local.min != remote.min then local.min else j.minSize,
       preferredSize := if local.preferred != remote.preferred then local.preferred else j.preferredSize,
       maxSize := if local.max != remote.max then local.max else j.maxSize)
  }

  /**
   * One local definition in `update_remote`: the remote definition of its name is looked up
   * first; when the two differ in any of title, min, preferred and max, the quality's id is
   * looked up and the remote JSON at that id, overlaid with the changes, is PUT.
   */
  function PutStep(remote: seq<(string, Definition)>, byId: seq<(int, RemoteDefinition)>, ids: seq<(string, int)>,
                   name: string, local: Definition): Result<Option<DefinitionPut>, SyncError>
  {
    if name !in KeySet(remote) then Err(NoRemoteDefinition(name))
    else
      var rd := Get(remote, name).value;
      if local == rd then Ok(None)
      else if name !in KeySet(ids) || Get(ids, name).value !in KeySet(byId) then Err(NoDefinitionId(name))
      else
        var id := Get(ids, name).value;
        Ok(Some(DefinitionPut(id, Overlay(Get(byId, id).value, name, local, rd))))
  }

  /** The calls made, and the error that ended the run, if any. */
  datatype PutPlan<T, E> = PutPlan(puts: seq<T>, error: Option<E>)

  /**
   * A run of steps, each of which makes at most one call or fails: the calls are made in
   * order and the first failure ends the run.
   */
  function Chain<T, E>(steps: seq<Result<Option<T>, E>>): PutPlan<T, E>
  {
    if steps == [] then PutPlan([], None)
    else
      var plan := Chain(steps[..|steps| - 1]);
      var step := steps[|steps| - 1];
      if plan.error.Some? then plan
      else if step.Err? then PutPlan(plan.puts, Some(step.error))
      else if step.value.Some? then PutPlan(plan.puts + [step.value.value], None)
      else plan
  }

  lemma ChainStep<T, E>(steps: seq<Result<Option<T>, E>>, i: int)
    requires 0 <= i < |steps|
    ensures Chain(steps[..i + 1]) ==
      var plan := Chain(steps[..i]);
      if plan.error.Some? then plan
      else if steps[i].Err? then PutPlan(plan.puts, Some(steps[i].error))
      else if steps[i].value.Some? then PutPlan(plan.puts + [steps[i].value.value], None)
      else plan
  {
    assert steps[..i + 1][..i] == steps[..i];
  }

  /** One step of a run that has not failed: an error ends the whole run there, a PUT is added. */
  lemma ChainAdvance<T, E>(steps: seq<Result<Option<T>, E>>, i: int, puts: seq<T>)
    requires 0 <= i < |steps|
    requires Chain(steps[..i]) == PutPlan(puts, None)
    ensures steps[i].Err? ==> Chain(steps) == PutPlan(puts, Some(steps[i].error))
    ensures steps[i].Ok? && steps[i].value.Some? ==> Chain(steps[..i + 1]) == PutPlan(puts + [steps[i].value.value], None)
    ensures steps[i].Ok? && steps[i].value.None? ==> Chain(steps[..i + 1]) == PutPlan(puts, None)
  {
    ChainStep(steps, i);
    if steps[i].Err? {
      ChainErrSticky(steps, i + 1);
    }
  }

  lemma {:induction false} ChainErrSticky<T, E>(steps: seq<Result<Option<T>, E>>, i: int)
    requires 0 <= i <= |steps|
    requires Chain(steps[..i]).error.Some?
    ensures Chain(steps) == Chain(steps[..i])
    decreases |steps| - i
  {
    if i < |steps| {
      ChainStep(steps, i);
      ChainErrSticky(steps, i + 1);
    } else {
      assert steps[..i] == steps;
    }
  }

  /** A run fails exactly when one of its steps does. */
  lemma {:induction false} ChainFails<T, E>(steps: seq<Result<Option<T>, E>>)
    ensures Chain(steps).error.Some? <==> exists i :: 0 <= i < |steps| && steps[i].Err?
  {
    if steps != [] {
      var front := steps[..|steps| - 1];
      ChainFails(front);
      if Chain(front).error.Some? {
        var i :| 0 <= i < |front| && front[i].Err?;
        assert steps[i] == front[i];
      } else if steps[|steps| - 1].Ok? {
        forall i | 0 <= i < |steps| ensures steps[i].Ok? {
          if i < |front| { assert steps[i] == front[i]; }
        }
      }
    }
  }

  /** A run that does not fail makes exactly the calls of its steps, at most one each. */
  lemma {:induction false} ChainMade<T, E>(steps: seq<Result<Option<T>, E>>)
    requires Chain(steps).error.None?
    ensures |Chain(steps).puts| <= |steps|
    ensures forall c :: c in Chain(steps).puts <==> exists i :: 0 <= i < |steps| && steps[i] == Ok(Some(c))
  {
    if steps != [] {
      var front := steps[..|steps| - 1];
      var last := steps[|steps| - 1];
      ChainMade(front);
      var before := Chain(front).puts;
      assert Chain(steps).puts == before + (if last.Ok? && last.value.Some? then [last.value.value] else []);
      forall c ensures c in Chain(steps).puts <==> exists i :: 0 <= i < |steps| && steps[i] == Ok(Some(c)) {
        if c in before {
          var i :| 0 <= i < |front| && front[i] == Ok(Some(c));
          assert steps[i] == front[i];
        }
        if exists i :: 0 <= i < |steps| && steps[i] == Ok(Some(c)) {
          var i :| 0 <= i < |steps| && steps[i] == Ok(Some(c));
          if i < |front| {
            assert front[i] == steps[i];
          }
        }
      }
    }
  }

  /** The step of each local definition, in local order. */
  function PutSteps(remote: seq<(string, Definition)>, byId: seq<(int, RemoteDefinition)>, ids: seq<(string, int)>,
                    local: seq<(string, Definition)>): (steps: seq<Result<Option<DefinitionPut>, SyncError>>)
    ensures |steps| == |local|
    ensures forall i :: 0 <= i < |local| ==> steps[i] == PutStep(remote, byId, ids, local[i].0, local[i].1)
  {
    seq(|local|, i requires 0 <= i < |local| => PutStep(remote, byId, ids, local[i].0, local[i].1))
  }

  /** The PUTs of `update_remote`, local definition by local definition, up to the first KeyError. */
  function Puts(remote: seq<(string, Definition)>, byId: seq<(int, RemoteDefinition)>, ids: seq<(string, int)>,
                local: seq<(string, Definition)>): PutPlan<DefinitionPut, SyncError>
  {
    Chain(PutSteps(remote, byId, ids, local))
  }

  /** `update_remote` fails exactly when the step of some local definition fails. */
  lemma PutsFail(remote: seq<(string, Definition)>, byId: seq<(int, RemoteDefinition)>,
                 ids: seq<(string, int)>, local: seq<(string, Definition)>)
    ensures Puts(remote, byId, ids, local).error.Some? <==>
      exists i :: 0 <= i < |local| && PutStep(remote, byId, ids, local[i].0, local[i].1).Err?
  {
    ChainFails(PutSteps(remote, byId, ids, local));
  }

  /** Without a failure, `update_remote` makes exactly the PUTs of the local definitions' steps, at most one each. */
  lemma PutsMade(remote: seq<(string, Definition)>, byId: seq<(int, RemoteDefinition)>,
                 ids: seq<(string, int)>, local: seq<(string, Definition)>)
    requires Puts(remote, byId, ids, local).error.None?
    ensures |Puts(remote, byId, ids, local).puts| <= |local|
    ensures forall p :: p in Puts(remote, byId, ids, local).puts <==>
      exists i :: 0 <= i < |local| && PutStep(remote, byId, ids, local[i].0, local[i].1) == Ok(Some(p))
  {
    var steps := PutSteps(remote, byId, ids, local);
    ChainMade(steps);
    forall p ensures p in Puts(remote, byId, ids, local).puts <==>
      exists i :: 0 <= i < |local| && PutStep(remote, byId, ids, local[i].0, local[i].1) == Ok(Some(p))
    {
      if exists i :: 0 <= i < |local| && PutStep(remote, byId, ids, local[i].0, local[i].1) == Ok(Some(p)) {
        var i :| 0 <= i < |local| && PutStep(remote, byId, ids, local[i].0, local[i].1) == Ok(Some(p));
        assert steps[i] == Ok(Some(p));
      }
    }
  }

  /**
   * A PUT goes to the id of the quality it is for, with the remote JSON of that id, overlaid
   * with the changes, as its body; it is made only for a local definition that differs from
   * the remote one.
   */
  lemma PutStepMeaning(js: seq<RemoteDefinition>, remote: seq<(string, Definition)>, name: string, local: Definition, p: DefinitionPut)
    requires PutStep(remote, DefinitionsById(js), DefinitionIds(DefinitionsById(js)), name, local) == Ok(Some(p))
    ensures name in KeySet(remote) && local != Get(remote, name).value
    ensures exists j :: j in js && j.id == p.id && j.quality.name == name && p.body == Overlay(j, name, local, Get(remote, name).value)
  {
    var byId := DefinitionsById(js);
    var ids := DefinitionIds(byId);
    var id := Get(ids, name).value;
    var k :| 0 <= k < |ids| && ids[k].0 == name && ids[k].1 == id;
    var a :| 0 <= a < |byId| && ids[k] == (byId[a].1.quality.name, byId[a].0);
    GetAt(byId, a);
    assert byId[a].1 in js;
  }

  /**
   * The body of a PUT decodes to the local definition when the remote JSON decodes to the
   * remote definition and the local definition is normal with a title in normal form.
   */
  lemma PutConverges(j: RemoteDefinition, name: string, local: Definition, remote: Definition)
    requires j.quality.name == name
    requires DefinitionFromRemote(j) == Ok(remote)
    requires Normal(local) && NormalTitle(local.title, name) == local.title
    ensures Overlay(j, name, local, remote).id == j.id
    ensures Overlay(j, name, local, remote).quality == j.quality && Overlay(j, name, local, remote).weight == j.weight
    ensures DefinitionFromRemote(Overlay(j, name, local, remote)) == Ok(local)
  {
    var body := Overlay(j, name, local, remote);
    NewDefinitionAccepts(TitleFromRemote(j.title, name), j.minSize, j.preferredSize, j.maxSize);
    TitleNormalises(local.title, name);
    assert TitleFromRemote(body.title, name) == local.title;
    assert body.minSize == local.min;
    assert Bounded(body.preferredSize, PreferredMax) == local.preferred;
    assert Bounded(body.maxSize, DefinitionMax) == local.max;
    NewDefinitionAccepts(local.title, body.minSize, body.preferredSize, body.maxSize);
  }

  /**
   * A PUT settles a definition only when the local definition is what validation leaves: a
   * body that reads back as the local definition means the local bounds were normal, and a
   * local title equal to the quality name never reads back as sent. Such a definition still
   * differs from the remote after its PUT, so it is PUT again on every run.
   */
  lemma PutSettlesOnlyNormal(j: RemoteDefinition, name: string, local: Definition, remote: Definition)
    requires j.quality.name == name
    requires DefinitionFromRemote(j) == Ok(remote)
    ensures DefinitionFromRemote(Overlay(j, name, local, remote)) == Ok(local) ==> Normal(local)
    ensures local.title == Some(name) ==> DefinitionFromRemote(Overlay(j, name, local, remote)) != Ok(local)
  {
    var body := Overlay(j, name, local, remote);
    NewDefinitionAccepts(TitleFromRemote(body.title, name), body.minSize, body.preferredSize, body.maxSize);
    if local.title == Some(name) {
      NewDefinitionAccepts(TitleFromRemote(j.title, name), j.minSize, j.preferredSize, j.maxSize);
      assert local.title != remote.title;
      assert body.title == name;
    }
  }

  /**
   * `SonarrQualitySettingsConfig`: the TRaSH-Guides profile to seed from, and the quality
   * definitions keyed by quality name, in insertion order.
   */
  class QualitySettings {
    var trashId: Option<string>
    var definitions: seq<(string, Definition)>

    constructor (trashId: Option<string>, definitions: seq<(string, Definition)>)
      ensures this.trashId == trashId && this.definitions == definitions
    {
      this.trashId := trashId;
      this.definitions := definitions;
    }

    /** `uses_trash_metadata`: a TRaSH-Guides profile is named, with a non-empty id. */
    predicate UsesTrashMetadata()
      reads this
    {
      trashId.Some? && trashId.value != ""
    }

    /**
     * `_render`: without a trash id, nothing changes. Otherwise the definitions of the first
     * file whose lower-cased trash id matches are merged in (a quality already defined keeps
     * its definition); with no such file, the definitions are unchanged and the trash id is
     * reported as not found.
     */
    method Render(files: seq<DatasetFile>) returns (r: Result<(), RenderError>)
      modifies this
      ensures trashId == old(trashId)
      ensures !old(UsesTrashMetadata()) ==> definitions == old(definitions) && r.Ok?
      ensures old(UsesTrashMetadata()) && FirstFile(files, trashId.value).None? ==>
        definitions == old(definitions) && r == Err(TrashIdNotFound(trashId.value))
      ensures old(UsesTrashMetadata()) && FirstFile(files, trashId.value).Some? ==>
        var m := Merge(old(definitions), DatasetDefinitions(files[FirstFile(files, trashId.value).value].qualities));
        definitions == m.definitions && (r.Ok? <==> m.error.None?) && (r.Err? ==> r.error == m.error.value)
    {
      if !UsesTrashMetadata() {
        return Ok(());
      }
      var id := trashId.value;
      var i := 0;
      while i < |files|
        invariant 0 <= i <= |files|
        invariant forall j :: 0 <= j < i ==> Lower(files[j].trashId) != id
        invariant trashId == old(trashId) && definitions == old(definitions)
      {
        if Lower(files[i].trashId) == id {
          r := MergeFile(files[i].qualities);
          return;
        }
        i := i + 1;
      }
      return Err(TrashIdNotFound(id));
    }

    /** The loop of `_render` over the matching file's qualities. */
    method MergeFile(es: seq<DatasetEntry>) returns (r: Result<(), RenderError>)
      modifies this
      ensures trashId == old(trashId)
      ensures definitions == Merge(old(definitions), DatasetDefinitions(es)).definitions
      ensures r.Ok? <==> Merge(old(definitions), DatasetDefinitions(es)).error.None?
      ensures r.Err? ==> r.error == Merge(old(definitions), DatasetDefinitions(es)).error.value
    {
      ghost var entries := DatasetDefinitions(es);
      var j := 0;
      while j < |es|
        invariant 0 <= j <= |es|
        invariant trashId == old(trashId)
        invariant Merge(old(definitions), entries[..j]) == Merged(definitions, None)
      {
        MergeStep(old(definitions), entries, j);
        var e := es[j];
        if e.quality !in KeySet(definitions) {
          var d := FromDataset(e);
          if d.Err? {
            MergeErrSticky(old(definitions), entries, j + 1);
            return Err(InvalidDefinition(e.quality, d.error));
          }
          definitions := definitions + [(e.quality, d.value)];
        }
        j := j + 1;
      }
      assert entries[..j] == entries;
      return Ok(());
    }

    /**
     * `update_remote`: for each local definition in order, compare it with the remote one of
     * the same name and, if any of title, min, preferred and max differs, PUT the remote JSON
     * overlaid with the changes to the definition's id. A missing remote definition or id ends
     * the run; otherwise the result says whether anything was PUT.
     */
    method UpdateRemote(remote: seq<(string, Definition)>, js: seq<RemoteDefinition>)
      returns (puts: seq<DefinitionPut>, r: Result<bool, SyncError>)
      ensures puts == Puts(remote, DefinitionsById(js), DefinitionIds(DefinitionsById(js)), definitions).puts
      ensures r.Ok? <==> Puts(remote, DefinitionsById(js), DefinitionIds(DefinitionsById(js)), definitions).error.None?
      ensures r.Err? ==> r.error == Puts(remote, DefinitionsById(js), DefinitionIds(DefinitionsById(js)), definitions).error.value
      ensures r.Ok? ==> r.value == (|puts| > 0)
    {
      var byId := DefinitionsById(js);
      var ids := DefinitionIds(byId);
      var defs := definitions;
      ghost var steps := PutSteps(remote, byId, ids, defs);
      var changed := false;
      puts := [];
      var i := 0;
      while i < |defs|
        invariant 0 <= i <= |defs|
        invariant Chain(steps[..i]) == PutPlan(puts, None)
        invariant changed == (|puts| > 0)
      {
        var step := PutStep(remote, byId, ids, defs[i].0, defs[i].1);
        assert step == steps[i];
        ChainAdvance(steps, i, puts);
        if step.Err? {
          return puts, Err(step.error);
        }
        if step.value.Some? {
          puts := puts + [step.value.value];
          changed := true;
        }
        i := i + 1;
      }
      assert steps[..i] == steps;
      return puts, Ok(changed);
    }
  }
}
