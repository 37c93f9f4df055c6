# Sonarr quality profiles and quality definitions, modelled in Dafny

This project models how buildarr-sonarr reconciles two parts of a Sonarr instance's
configuration: its **quality profiles** and its **quality definitions**.

**Quality profiles** (`buildarr_sonarr/config/profiles/quality.py`):

- *Validation.* `QualityProfile` validates its fields in declaration order:
  - quality names are unique across bare entries and group members;
  - the `upgrade_until` rule;
  - the custom-format cutoff score bound;
  - custom-format de-duplication.
- *Wire mapping.* The profile is sent to the remote as a body:
  - the quality list, reversed and padded with a disabled item for every catalog quality
    that is not enabled;
  - the cutoff, with the synthetic group ids `1000 + k`;
  - the custom-format scores, padded to the whole custom-format catalog.
- *Decoding.* Decoding reverses the quality list, filters the custom-format scores and
  sorts them.
- *Calls.* `update_remote` and `delete_remote` decide which POST, PUT and DELETE calls to
  make. The calls come out as a list of actions instead of being sent.

**Quality definitions** (`buildarr_sonarr/config/quality.py`):

- *Bounds.* `min`, `preferred` and `max` are bitrates, modelled as `real`. A value of 1000
  or more means "unbounded", and validation turns it into `None`.
- *`_render`.* It merges the first TRaSH-Guides quality-size file whose trash id matches
  into the definitions. A quality already defined keeps its definition.
- *`from_remote`.* The remote title becomes `None` when it equals the quality name.
- *`update_remote`.* It PUTs the remote JSON, overlaid with the changed fields, for every
  local definition that differs from the remote one.

The modules:

- `Wrappers` holds `Option` and `Result`.
- `Dicts` models Python dictionaries as sequences of pairs in insertion order. `Assign` is
  `d[k] = v` and `DictOf` is a dictionary comprehension.
- `Seqs` holds `Reverse`; `Text` holds lexicographic order and lower-casing.
- `ProfileModel` holds the profile entities and the remote JSON shapes:
  - an entry is `Bare(name)` or `Group(name, members)`, and group members are a set;
  - a remote item is `Single(quality, allowed)` or `Grouped(id, name, members, allowed)`.
- `ProfileValidation` and `ProfileRules` hold the validators and the whole-profile validation.
- `QualityCodec` holds the quality list and the cutoff.
- `FormatCodec` holds the custom-format scores.
- `ProfileSync` holds the profile body and the create/update/delete decisions.
- `QualityDefinitions` holds one quality definition and `from_remote`.
- `QualitySettingsConfig` holds the settings object: the class `QualitySettings`, with its
  `Render` and `UpdateRemote` methods.

Loops that build lists, dictionaries and sets in the source are methods with loop
invariants. Each is proved equal to a recursive specification function that consumes its
input one element at a time from the end. The lemmas about those functions state what the
source promises.

A run of per-item steps in which the first error ends the run is shared by several models:

- profile update and delete use `Run`;
- definition PUTs use `Chain`;
- the dictionary comprehension of `from_remote` uses `Collect`.

The duplicate-quality error keeps the source's behaviour at
`buildarr_sonarr/config/profiles/quality.py:202`. The condition tests the current entry
twice, so a bare entry that repeats a group member is reported as "both are non-grouped".
`ProfileValidation.DuplicateError` chooses the error variant the same way.

Reconciliation is not idempotent for every configuration the validators accept. Three cases
are re-sent on every run, because what is sent reads back as a different value:

- *Custom-format scores.* The scores of a profile read back as sent exactly when they are
  already sorted by descending score, then name, and every score is present and nonzero
  (`FormatCodec.FormatsRoundTrip`). A list in another order comes back reordered
  (`FormatCodec.UnsortedFormatsReordered`), and a score of 0 is not read back at all
  (`FormatCodec.ZeroScoreDropped`). Such a profile still differs from the remote after its
  PUT, so it is PUT again.
- *Definition titles.* A title equal to the quality name, or an empty title, reads back as no
  title (`QualityDefinitions.TitleNormalises`). A definition that carries one is PUT again
  (`QualitySettingsConfig.PutSettlesOnlyNormal`).
- *Definition bounds.* A PUT reads back as the local definition only when its bounds are
  already what validation leaves (`QualitySettingsConfig.PutSettlesOnlyNormal`).

The model keeps the code's behaviour in all three cases.

The example configuration in the documentation of `SonarrQualitySettingsConfig`
(`buildarr_sonarr/config/quality.py:138-143`) sets `min` 2, `preferred` null and `max` 100.
The validators refuse it. With `preferred` unbounded, `validate_max` falls back to 1000 and
refuses every finite `max` below 1000 (`QualityDefinitions.DocumentedExampleRefused`). Sonarr
itself orders preferred at or below max, so either the documentation or the fallback may be
the mistake. The model follows the code.

## Model

| member | source | states |
|---|---|---|
| ProfileValidation.ValidateQualities | buildarr_sonarr/config/profiles/quality.py:190-218 | succeeds, returning its input unchanged, exactly when no quality name occurs twice among bare entries and group members; otherwise the error names a quality shared by the first clashing entry and an earlier one, with the variant chosen as the source does (current entry bare: "both non-grouped") |
| ProfileValidation.ValidateUpgradeUntil | buildarr_sonarr/config/profiles/quality.py:220-247 | passes the value through when a sibling field failed; returns None when upgrades are off; with upgrades on, fails with "required" on an empty value, with "not enabled" on a name that is not a top-level entry, and otherwise returns the value unchanged |
| ProfileValidation.NamesEntryIsTopName | buildarr_sonarr/config/profiles/quality.py:241-246 | the `for … else` search finds the value exactly when it is the name of a bare entry or of a group (member names do not count) |
| ProfileValidation.ValidateCutoffFormatScore | buildarr_sonarr/config/profiles/quality.py:249-262 | fails exactly when the score is below a present minimum, with that error; otherwise returns the score unchanged |
| ProfileValidation.ValidateCustomFormats | buildarr_sonarr/config/profiles/quality.py:264-282 | the dictionary-and-list loop computes exactly the reference de-duplication `DedupFormats` |
| ProfileValidation.DedupFormatsMeaning | buildarr_sonarr/config/profiles/quality.py:264-282 | de-duplication fails exactly when some format name carries two different scores; otherwise the output has pairwise-distinct names, holds exactly the input's entries, and keeps first-occurrence order |
| ProfileValidation.DedupDistinctIsIdentity | buildarr_sonarr/config/profiles/quality.py:264-282 | a list whose names are already distinct comes back unchanged |
| ProfileRules.ValidateProfile | buildarr_sonarr/config/profiles/quality.py:118-282 | a profile is accepted exactly when it meets every field constraint and validator; the accepted profile is valid, has its formats de-duplicated and `upgrade_until` cleared when upgrades are off; a valid profile comes back unchanged |
| FormatCodec.DecodeFormatsSpec | buildarr_sonarr/config/profiles/quality.py:370-382 | the decoder output is sorted by descending score then ascending name, and holds exactly the remote entries with a nonzero score, with their multiplicities |
| FormatCodec.SortedUnique | buildarr_sonarr/config/profiles/quality.py:375-382 | two sorted lists of the same decoded scores are equal: the decoded order does not depend on the remote order |
| FormatCodec.EncodeFormats | buildarr_sonarr/config/profiles/quality.py:384-403 | the encoder's two loops produce the local entries followed by the padding (`FormatItems`), or the first unknown format |
| FormatCodec.EncodeScores | buildarr_sonarr/config/profiles/quality.py:390-396 | the first loop produces the local entries in local order and records exactly the local names, or fails at the first name missing from the catalog |
| FormatCodec.AppendPadding | buildarr_sonarr/config/profiles/quality.py:397-402 | the second loop appends exactly the padding of catalog formats not yet named, in catalog order |
| FormatCodec.EncodeLocalMeaning | buildarr_sonarr/config/profiles/quality.py:392-396 | the local entries succeed exactly when every name is in the catalog, then carry one entry per local score with the catalog's id, name and score in local order; on failure the first missing name is reported |
| FormatCodec.PaddingIndices | buildarr_sonarr/config/profiles/quality.py:397-402 | each padding entry is a catalog format not named locally, with its catalog id and score 0, and the entries follow catalog order |
| FormatCodec.PaddingComplete | buildarr_sonarr/config/profiles/quality.py:397-402 | every catalog format not named locally has its score-0 entry in the padding |
| FormatCodec.SentReadBack | buildarr_sonarr/config/profiles/quality.py:370-403 | present, nonzero scores that the catalog all knows are sent, and the nonzero entries read back from what was sent are exactly those scores in order (the zero-score padding drops out) |
| FormatCodec.FormatsRoundTrip | buildarr_sonarr/config/profiles/quality.py:370-403 | decoding what the encoder sent gives back the local scores exactly when they are sorted by (-score, name) and every score is present and nonzero |
| FormatCodec.UnsortedFormatsReordered | buildarr_sonarr/config/profiles/quality.py:375-382 | `b` at 5 then `a` at 10 is sent in that order and reads back as `a` at 10 then `b` at 5 |
| FormatCodec.ZeroScoreDropped | buildarr_sonarr/config/profiles/quality.py:379 | a local score of 0 is sent but reads back as no entry |
| FormatCodec.FormatItemsCoverCatalog | buildarr_sonarr/config/profiles/quality.py:384-403 | with distinct local names all in the catalog, the encoded list names every catalog format exactly once and nothing else |
| QualityCodec.EncodeGroup | buildarr_sonarr/config/profiles/quality.py:48-56 | a group encodes exactly when all its members are in the catalog, as an allowed group item with its id and name and one nested item per member in some set order; otherwise a missing member is reported |
| QualityCodec.EncodeEntry | buildarr_sonarr/config/profiles/quality.py:603-610 | one local entry encodes exactly when its lookups succeed, as the allowed item for it; otherwise a key error for a missing name |
| QualityCodec.EncodeEnabled | buildarr_sonarr/config/profiles/quality.py:603-610 | the first loop yields one allowed item per entry in local order, and the enabled names are exactly the bare names and group members |
| QualityCodec.AppendDisabled | buildarr_sonarr/config/profiles/quality.py:612-614 | the second loop appends exactly one disabled item per catalog quality not enabled, in catalog order |
| QualityCodec.EncodeQualities | buildarr_sonarr/config/profiles/quality.py:595-616 | encoding succeeds exactly when every name resolves, and its output reversed is the local entries followed by the disabled catalog qualities; otherwise a key error |
| QualityCodec.DisabledAreSingles | buildarr_sonarr/config/profiles/quality.py:612-614 | every padding item is a disallowed single quality |
| QualityCodec.DisabledComplete | buildarr_sonarr/config/profiles/quality.py:612-614 | every catalog quality that is not enabled has its disallowed item in the padding |
| QualityCodec.DecodeEncodedEntry | buildarr_sonarr/config/profiles/quality.py:578-592 | decoding an encoded entry gives back the entry, a group by name and member set, when catalog keys are quality names |
| QualityCodec.QualitiesRoundTrip | buildarr_sonarr/config/profiles/quality.py:578-616 | `_decode_qualities(_encode_qualities(q)) == q` for entries without empty groups, when catalog keys are quality names |
| QualityCodec.GroupIdsPositions | buildarr_sonarr/config/profiles/quality.py:417-423 | the group at 0-based position k among the groups (the last of its name) gets id 1001 + k |
| QualityCodec.GroupIdsRange | buildarr_sonarr/config/profiles/quality.py:417-423 | every group id lies in 1001 .. 1000 + number of groups |
| QualityCodec.GroupIdsInjective | buildarr_sonarr/config/profiles/quality.py:417-423 | different group names get different ids |
| QualityCodec.GroupIdNames | buildarr_sonarr/config/profiles/quality.py:417-423 | exactly the names of the group entries get an id |
| QualityCodec.DecodeCutoff | buildarr_sonarr/config/profiles/quality.py:330-347 | returns the name of the first item whose id (a group's own id, else its quality's id) is the cutoff, and fails exactly when no item has it |
| QualityCodec.CutoffRoundTrip | buildarr_sonarr/config/profiles/quality.py:330-368 | the encoded cutoff decodes, against the encoded items, to `upgrade_until`, or to the first entry when it is empty; a group id is preferred over a definition id (catalog keys are names, catalog ids are distinct and outside the group-id range) |
| ProfileSync.EncodeProfile | buildarr_sonarr/config/profiles/quality.py:284-328 | the body succeeds exactly when every attribute encodes and then carries the scores, the format items, the cutoff and the items of the profile; otherwise the error of the first attribute that fails |
| ProfileSync.ResolvableByNames | buildarr_sonarr/config/profiles/quality.py:417-423 | with the synthesised group ids, every group name resolves, so encoding needs only the quality names in the catalog |
| ProfileSync.EncodedProfileDecodes | buildarr_sonarr/config/profiles/quality.py:330-403 | the body sent for a valid profile decodes to its qualities, and its cutoff to `upgrade_until` or, with upgrades off, to the first entry; its custom-format scores read back as the profile's exactly when those are sorted by the decoder's key and all present and nonzero |
| ProfileSync.CreateRemote | buildarr_sonarr/config/profiles/quality.py:409-436 | POSTs, under the profile's name, a body that encodes the profile, exactly when it encodes |
| ProfileSync.UpdateProfile | buildarr_sonarr/config/profiles/quality.py:438-471 | PUTs, with the profile's id and name, a body encoding the profile exactly when it differs from the remote one, and returns whether it did |
| ProfileSync.SyncProfile | buildarr_sonarr/config/profiles/quality.py:536-554 | one iteration: a POST for a profile the remote lacks, a PUT to the looked-up id when changed, nothing when unchanged, an error for a missing id or a profile that does not encode |
| ProfileSync.UpdateRemote | buildarr_sonarr/config/profiles/quality.py:508-555 | the calls made are those of the step-by-step plan up to the first failure, each carrying a body encoding a local profile, and the result is true exactly when a call was made |
| ProfileSync.UpdatePlanFails | buildarr_sonarr/config/profiles/quality.py:534-554 | `update_remote` fails exactly when some local profile does not encode, or exists remotely without an id |
| ProfileSync.UpdatePlanCalls | buildarr_sonarr/config/profiles/quality.py:534-554 | without a failure, exactly the local profiles absent remotely are POSTed, and exactly the changed ones are PUT to their ids; at most one call each |
| ProfileSync.UpdatePlanIdle | buildarr_sonarr/config/profiles/quality.py:515-555 | without a failure, no call is made exactly when every local profile exists remotely with the same value |
| ProfileSync.RunFails | buildarr_sonarr/config/profiles/quality.py:534-554 | a run of per-profile steps fails exactly when one of them stops |
| ProfileSync.RunCalls | buildarr_sonarr/config/profiles/quality.py:534-554 | a run that does not fail makes exactly the calls of its steps, at most one per step |
| ProfileSync.RunIdle | buildarr_sonarr/config/profiles/quality.py:534-554 | a run whose steps all make no call makes no call and does not fail |
| ProfileSync.DeleteRemote | buildarr_sonarr/config/profiles/quality.py:557-575 | the DELETE calls made are those of the plan up to the first failure, and the result is true exactly when a call was made |
| ProfileSync.DeletePlanMeaning | buildarr_sonarr/config/profiles/quality.py:557-575 | without `delete_unmanaged`, nothing is deleted and nothing fails; with it, the run fails exactly when an unmanaged profile has no id, and otherwise DELETEs exactly the ids of remote profiles not defined locally |
| QualityDefinitions.ValidatePreferred | buildarr_sonarr/config/quality.py:82-100 | None or ≥ 1000 becomes None; otherwise it fails exactly when a present min is not at least 1 below, and keeps the value |
| QualityDefinitions.ValidateMax | buildarr_sonarr/config/quality.py:102-124 | None or ≥ 1000 becomes None; otherwise it fails exactly when max is less than 1 above preferred (1000 when preferred is unbounded, so a finite max is then always refused), unless preferred failed |
| QualityDefinitions.NewDefinition | buildarr_sonarr/config/quality.py:42-124 | construction reports at least one error on failure, and keeps title and min on success |
| QualityDefinitions.NewDefinitionAccepts | buildarr_sonarr/config/quality.py:35-124 | construction succeeds exactly for min in [0, 999], preferred in [0, 1000], max in [1, 1000] with the 1-apart rules; the result keeps title and min, turns sentinel bounds into None, and has min + 1 ≤ preferred and preferred + 1 ≤ max for finite bounds |
| QualityDefinitions.DocumentedExampleRefused | buildarr_sonarr/config/quality.py:102-124 | `min` 2, `preferred` unbounded, `max` 100, the documented example, fails with exactly one error: `max` is not 1 above the fallback preferred of 1000 |
| QualityDefinitions.NewDefinitionIdempotent | buildarr_sonarr/config/quality.py:82-124 | validating an already validated definition gives it back unchanged |
| QualityDefinitions.DefinitionFromRemote | buildarr_sonarr/config/quality.py:207-217 | a decoded definition has no title exactly when the remote title is the quality name, and an absent maxSize gives an unbounded max |
| QualityDefinitions.TitleRoundTrip | buildarr_sonarr/config/quality.py:209-213 | decoding a remote title then encoding it with `v or name` gives the remote title back exactly when it is not an empty title for a non-empty name |
| QualityDefinitions.TitleNormalises | buildarr_sonarr/config/quality.py:243 | encoding a local title then decoding it gives its normal form, and gives it back exactly when it is already normal |
| QualityDefinitions.CollectFails | buildarr_sonarr/config/quality.py:206-219 | a dictionary comprehension whose values may raise fails exactly when one of its values does |
| QualityDefinitions.CollectKeys | buildarr_sonarr/config/quality.py:206-219 | a successful comprehension holds each of its keys exactly once |
| QualityDefinitions.CollectValues | buildarr_sonarr/config/quality.py:206-219 | in a successful comprehension each key holds the value of its last entry |
| QualityDefinitions.FromRemoteFails | buildarr_sonarr/config/quality.py:204-220 | `from_remote` fails exactly when some remote definition fails validation |
| QualityDefinitions.FromRemoteKeys | buildarr_sonarr/config/quality.py:204-220 | a successful `from_remote` holds each remote quality name exactly once, and no other |
| QualityDefinitions.FromRemoteValues | buildarr_sonarr/config/quality.py:204-220 | each quality name holds the definition decoded from its last remote entry |
| Dicts.AssignGet | buildarr_sonarr/config/quality.py:207-208 | after `d[k] = v`, k holds v and every other key what it held |
| Dicts.DictOfLast | buildarr_sonarr/config/quality.py:230-233 | in a comprehension-built dictionary each key holds the value of its last occurrence |
| QualitySettingsConfig.FirstFile | buildarr_sonarr/config/quality.py:184-189 | finds the first file whose lower-cased trash id matches, or reports that none does |
| QualitySettingsConfig.MergeKeepsExisting | buildarr_sonarr/config/quality.py:190-198 | the merge keeps every existing definition in place and unchanged, only appends qualities not defined before, and keeps names distinct |
| QualitySettingsConfig.MergeAddsFirst | buildarr_sonarr/config/quality.py:190-198 | each added definition is built from the first dataset entry for its quality |
| QualitySettingsConfig.MergeCovers | buildarr_sonarr/config/quality.py:190-198 | after a merge without failure every dataset quality is defined |
| QualitySettingsConfig.KeysKept | buildarr_sonarr/config/quality.py:192 | every quality defined before the merge is still defined after it |
| QualitySettingsConfig.MergeFailsAt | buildarr_sonarr/config/quality.py:192-198 | a failing merge fails at an invalid entry for a quality neither defined before nor named by an earlier entry |
| QualitySettingsConfig.MergeFailsIf | buildarr_sonarr/config/quality.py:192-198 | such an invalid entry always makes the merge fail |
| QualitySettingsConfig.QualitySettings.Render | buildarr_sonarr/config/quality.py:178-202 | without a trash id nothing changes; otherwise the first matching file's entries are merged into the definitions, or the trash id is reported not found with the definitions unchanged |
| QualitySettingsConfig.QualitySettings.MergeFile | buildarr_sonarr/config/quality.py:190-199 | the loop over the matching file's qualities leaves exactly the merge's definitions and its error |
| QualitySettingsConfig.DefinitionsById | buildarr_sonarr/config/quality.py:230-233 | the remote JSON keyed by id: distinct ids, each entry a remote definition under its own id |
| QualitySettingsConfig.DefinitionIds | buildarr_sonarr/config/quality.py:234-237 | quality names to ids: distinct names, each pair taken from a remote definition |
| QualitySettingsConfig.PutStepMeaning | buildarr_sonarr/config/quality.py:238-255 | a PUT is made only for a local definition that differs from the remote one, to the id of a remote definition of that quality, with that JSON overlaid with the changes as body |
| QualitySettingsConfig.PutConverges | buildarr_sonarr/config/quality.py:242-254 | the PUT body keeps the remote id, quality and other fields, and decodes to the local definition when that is normal |
| QualitySettingsConfig.PutSettlesOnlyNormal | buildarr_sonarr/config/quality.py:207-254 | a PUT body that decodes to the local definition means the local bounds were normal; a local title equal to the quality name never decodes back, so that definition is PUT on every run |
| QualitySettingsConfig.ChainFails | buildarr_sonarr/config/quality.py:238-257 | a run of PUT steps fails exactly when one of them does |
| QualitySettingsConfig.ChainMade | buildarr_sonarr/config/quality.py:238-257 | a run that does not fail makes exactly the PUTs of its steps, at most one each |
| QualitySettingsConfig.PutsFail | buildarr_sonarr/config/quality.py:238-257 | `update_remote` fails exactly when some local definition has no remote definition or, when changed, no id |
| QualitySettingsConfig.PutsMade | buildarr_sonarr/config/quality.py:238-257 | without a failure, exactly the PUTs of the changed local definitions are made |
| QualitySettingsConfig.QualitySettings.UpdateRemote | buildarr_sonarr/config/quality.py:222-257 | the PUTs made and the error are those of the step-by-step plan, and the result is true exactly when something was PUT |

## Left out

- The HTTP layer is not modelled: `api_get`, `api_post`, `api_put`, `api_delete`, the
  client, and the custom-format listing. The remote's profiles, profile ids, quality
  definitions and custom formats are inputs, and the calls are returned as actions.
- The framework's `get_update_remote_attrs`, `get_create_remote_attrs` and `get_local_attrs`
  are not part of this model:
  - the diff of a profile is inequality of the whole local and remote profile value;
  - the diff of a quality definition is inequality of title, min, preferred and max;
  - with `set_unchanged`, the whole encoded body is sent.
- ProfileSync.UpdateProfile encodes the body of every local profile that exists remotely,
  changed or not. An encoding error therefore stops the run even for an unchanged profile.
  This follows from `set_unchanged=True`.
- `QualityProfile._from_remote` and `SonarrQualityProfilesSettingsConfig.from_remote` are not
  modelled as a whole: their per-attribute decoders are, but assembling them is framework code.
- ProfileRules.ValidateProfile reports only the first failing field, where pydantic collects
  the error of every field. `QualityDefinitions.NewDefinition` does collect every field's error.
- Types:
  - `NonEmptyStr` and `TrashID` internals are not modelled, so names and trash ids are plain
    strings;
  - pydantic's type coercion is not modelled;
  - bitrates are `real`, without floating-point rounding.
- Logging and the wording of error messages are not modelled. Each error is a datatype variant.
- The weight-descending sort that builds the quality catalog is not modelled. The catalog is
  an ordered input.
- Python set iteration order is unspecified, so it is a nondeterministic choice:
  - for group members in `QualityGroup.encode`, the contract of `QualityCodec.EncodeGroup`
    (through `GroupEncodes`) says only that some order of the set is used;
  - for group members in `validate_qualities`, the same applies.
- The directory listing and JSON reading in `_render` are not modelled. The quality-size
  files are an input sequence, in the order the listing would give.
- Text.Lower: it lower-cases ASCII letters only, where Python's `str.lower()`
  (`buildarr_sonarr/config/quality.py:189`) lower-cases every Unicode letter. Trash ids are
  hexadecimal, so the match in `QualitySettingsConfig.FirstFile` is the same for them.
- FormatCodec.ReadBack: what the remote stores for a null custom-format score is not
  modelled. The read-back takes it as 0; `FormatCodec.FormatsRoundTrip` does not depend on
  that choice.
- A remote `maxSize` that is absent and one that is `null` are both `None`.
- The `remote: Self` argument of `update_remote` is passed as its definitions sequence.
- A remote group item with no nested items would make `_decode_qualities` read a `quality`
  key that a group does not have. This is the error `GroupWithoutItems`.
