/**
 * Pushing quality profiles to a Sonarr instance: the body a local profile is sent as, and the
 * create, update and delete calls the settings decide on. The calls are returned as a list of
 * actions instead of being sent.
 */
module ProfileSync {
  import opened Wrappers
  import opened Seqs
  import opened Dicts
  import opened ProfileModel
  import opened ProfileValidation
  import opened ProfileRules
  import opened QualityCodec
  import opened FormatCodec

  /** The remote catalogs the encoders look names up in. */
  datatype Catalogs = Catalogs(qualities: Catalog, formats: FormatCatalog)

  /** `SonarrQualityProfilesSettingsConfig`: profiles by name, and whether to delete the rest. */
  datatype ProfileSettings = ProfileSettings(deleteUnmanaged: bool, definitions: seq<(string, Profile)>)

  /** A call to the quality profile API. */
  datatype Action =
    | Post(name: string, body: ProfileBody)
    | Put(id: int, name: string, body: ProfileBody)
    | Delete(id: int)

  /** An action without its body: which call is made on which profile. */
  datatype Call = PostCall(name: string) | PutCall(id: int, name: string) | DeleteCall(id: int)

  function CallOf(a: Action): Call
  {
    match a
    case Post(n, _) => PostCall(n)
    case Put(id, n, _) => PutCall(id, n)
    case Delete(id) => DeleteCall(id)
  }

  function Calls(actions: seq<Action>): (cs: seq<Call>)
    ensures |cs| == |actions|
    ensures forall i :: 0 <= i < |actions| ==> cs[i] == CallOf(actions[i])
  {
    seq(|actions|, i requires 0 <= i < |actions| => CallOf(actions[i]))
  }

  // ---------------------------------------------------------------------------------------
  // The body of a profile
  // ---------------------------------------------------------------------------------------

  /** Every attribute of `p` encodes without a missing name. */
  predicate Encodable(cs: Catalogs, p: Profile)
  {
    && FormatItems(cs.formats, p.customFormats).Ok?
    && EncodeCutoff(cs.qualities, GroupIds(p.qualities), p.qualities, p.upgradeUntil).Ok?
    && Resolvable(cs.qualities, GroupIds(p.qualities), p.qualities)
  }

  /** `body` is an encoding of `p`: one for each order of the group members. */
  ghost predicate EncodesProfile(cs: Catalogs, p: Profile, body: ProfileBody)
  {
    && body.minFormatScore == p.minFormatScore
    && body.cutoffFormatScore == p.cutoffFormatScore
    && body.minUpgradeFormatScore == p.minUpgradeFormatScore
    && FormatItems(cs.formats, p.customFormats) == Ok(body.formatItems)
    && body.upgradeAllowed == p.upgradesAllowed
    && EncodeCutoff(cs.qualities, GroupIds(p.qualities), p.qualities, p.upgradeUntil) == Ok(body.cutoff)
    && ForwardEncoding(cs.qualities, GroupIds(p.qualities), p.qualities, Reverse(body.items))
  }

  /**
   * The attributes `_create_remote` and `_update_remote` send, encoded field by field in the
   * order of the remote map, with the group ids synthesised from the profile's groups. The
   * first key error ends the encoding. An empty `qualities` encodes as an empty list; it fails
   * only in the cutoff, at `qualities[0]`, when `upgrade_until` is empty.
   */
  method EncodeProfile(cs: Catalogs, p: Profile) returns (r: Result<ProfileBody, ProfileError>)
    requires DistinctKeys(cs.qualities) && DistinctKeys(cs.formats)
    ensures r.Ok? <==> Encodable(cs, p)
    ensures r.Ok? ==> EncodesProfile(cs, p, r.value)
    ensures FormatItems(cs.formats, p.customFormats).Err? ==> r == Err(FormatItems(cs.formats, p.customFormats).error)
    ensures FormatItems(cs.formats, p.customFormats).Ok? &&
            EncodeCutoff(cs.qualities, GroupIds(p.qualities), p.qualities, p.upgradeUntil).Err? ==>
            r == Err(EncodeCutoff(cs.qualities, GroupIds(p.qualities), p.qualities, p.upgradeUntil).error)
    ensures r.Err? && FormatItems(cs.formats, p.customFormats).Ok? &&
            EncodeCutoff(cs.qualities, GroupIds(p.qualities), p.qualities, p.upgradeUntil).Ok? ==>
            Unresolved(cs.qualities, GroupIds(p.qualities), r.error)
  {
    var groupIds := GroupIds(p.qualities);
    var formatItems := EncodeFormats(cs.formats, p.customFormats);
    if formatItems.Err? {
      return Err(formatItems.error);
    }
    var cutoff := EncodeCutoff(cs.qualities, groupIds, p.qualities, p.upgradeUntil);
    if cutoff.Err? {
      return Err(cutoff.error);
    }
    var items := EncodeQualities(cs.qualities, groupIds, p.qualities);
    if items.Err? {
      return Err(items.error);
    }
    return Ok(ProfileBody(p.minFormatScore, p.cutoffFormatScore, p.minUpgradeFormatScore, formatItems.value,
                          p.upgradesAllowed, cutoff.value, items.value));
  }

  /** Every group name of a profile has an id, so only the quality names must be in the catalog. */
  lemma ResolvableByNames(catalog: Catalog, q: seq<Quality>)
    ensures Resolvable(catalog, GroupIds(q), q) <==> forall i :: 0 <= i < |q| ==> Members(q[i]) <= KeySet(catalog)
  {
    GroupIdNames(q);
    forall i | 0 <= i < |q| && q[i].Group? ensures q[i].name in GroupIds(q) {
    }
  }

  /**
   * Decoding the body sent for a valid profile gives back its qualities and names its cutoff:
   * `upgrade_until` when upgrades are allowed, the first entry otherwise — provided the
   * catalog is keyed by quality name, its ids are distinct and none of them falls among the
   * synthetic group ids. Its custom-format scores read back as sent only when they are
   * already in the decoder's order with every score present and nonzero.
   */
  lemma EncodedProfileDecodes(cs: Catalogs, p: Profile, body: ProfileBody)
    requires KeysAreNames(cs.qualities) && DistinctIds(cs.qualities)
    requires OutsideGroupRange(cs.qualities, |Groups(p.qualities)|)
    requires ValidProfile(p)
    requires EncodesProfile(cs, p, body)
    ensures DecodeQualities(body.items) == Ok(p.qualities)
    ensures p.upgradesAllowed ==> DecodeCutoff(body.items, body.cutoff) == Ok(p.upgradeUntil.value)
    ensures !p.upgradesAllowed ==> DecodeCutoff(body.items, body.cutoff) == Ok(p.qualities[0].name)
    ensures DecodeFormats(Received(body.formatItems)) == p.customFormats <==>
            SortedByKey(p.customFormats) && Decodable(p.customFormats)
  {
    FormatsRoundTrip(cs.formats, p.customFormats, body.formatItems);
    QualitiesRoundTrip(cs.qualities, GroupIds(p.qualities), p.qualities, body.items);
    var fwd := Reverse(body.items);
    assert Resolvable(cs.qualities, GroupIds(p.qualities), p.qualities) by {
      forall i | 0 <= i < |p.qualities| ensures EntryResolvable(cs.qualities, GroupIds(p.qualities), p.qualities[i]) {
        assert EncodesEntry(cs.qualities, GroupIds(p.qualities), p.qualities[i], fwd[i]);
      }
    }
    CutoffRoundTrip(cs.qualities, p.qualities, p.upgradeUntil, body.items);
  }

  // ---------------------------------------------------------------------------------------
  // Runs of per-profile steps
  // ---------------------------------------------------------------------------------------

  /** What processing one profile contributes: an error that ends the run, or at most one call. */
  datatype Step = Stop | Go(call: Option<Call>)

  /** The calls made, and whether the run ended at an error. */
  datatype Plan = Plan(calls: seq<Call>, failed: bool)

  /** The steps taken in order, up to the first that stops. */
  function Run(steps: seq<Step>): Plan
  {
    if steps == [] then Plan([], false)
    else
      var plan := Run(steps[..|steps| - 1]);
      if plan.failed then plan
      else
        match steps[|steps| - 1]
        case Stop => Plan(plan.calls, true)
        case Go(None) => plan
        case Go(Some(c)) => Plan(plan.calls + [c], false)
  }

  function OptionSeq<T>(o: Option<T>): seq<T>
  {
    if o.Some? then [o.value] else []
  }

  lemma CallsAppend(actions: seq<Action>, a: Option<Action>)
    ensures Calls(actions + OptionSeq(a)) == Calls(actions) + (if a.Some? then [CallOf(a.value)] else [])
  {
  }

  /** A step that goes on adds its call, if any, to a run that has not failed. */
  lemma RunAdvance(steps: seq<Step>, i: int, actions: seq<Action>, a: Option<Action>)
    requires 0 <= i < |steps|
    requires Run(steps[..i]) == Plan(Calls(actions), false)
    requires steps[i] == Go(if a.Some? then Some(CallOf(a.value)) else None)
    ensures Run(steps[..i + 1]) == Plan(Calls(actions + OptionSeq(a)), false)
  {
    assert steps[..i + 1][..i] == steps[..i];
    CallsAppend(actions, a);
  }

  lemma {:induction false} RunFailedSticky(steps: seq<Step>, i: int)
    requires 0 <= i <= |steps|
    requires Run(steps[..i]).failed
    ensures Run(steps) == Run(steps[..i])
    decreases |steps| - i
  {
    if i < |steps| {
      assert steps[..i + 1][..i] == steps[..i];
      RunFailedSticky(steps, i + 1);
    } else {
      assert steps[..i] == steps;
    }
  }

  /** A step that stops ends the run with the calls made before it. */
  lemma RunStop(steps: seq<Step>, i: int, calls: seq<Call>)
    requires 0 <= i < |steps|
    requires Run(steps[..i]) == Plan(calls, false)
    requires steps[i] == Stop
    ensures Run(steps) == Plan(calls, true)
  {
    assert steps[..i + 1][..i] == steps[..i];
    RunFailedSticky(steps, i + 1);
  }

  /** A run fails exactly when one of its steps stops. */
  lemma {:induction false} RunFails(steps: seq<Step>)
    ensures Run(steps).failed <==> exists i :: 0 <= i < |steps| && steps[i].Stop?
  {
    if steps != [] {
      var p := steps[..|steps| - 1];
      RunFails(p);
      assert forall i :: 0 <= i < |p| ==> steps[i] == p[i];
    }
  }

  /** A run whose every step goes on without a call makes no call and does not fail. */
  lemma {:induction false} RunIdle(steps: seq<Step>)
    requires forall i :: 0 <= i < |steps| ==> steps[i] == Go(None)
    ensures Run(steps) == Plan([], false)
  {
    if steps != [] {
      var p := steps[..|steps| - 1];
      assert forall i :: 0 <= i < |p| ==> p[i] == steps[i];
      RunIdle(p);
    }
  }

  /** A run that does not fail makes exactly the calls of its steps, at most one per step. */
  lemma {:induction false} RunCalls(steps: seq<Step>)
    requires !Run(steps).failed
    ensures |Run(steps).calls| <= |steps|
    ensures forall c :: c in Run(steps).calls <==> exists i :: 0 <= i < |steps| && steps[i] == Go(Some(c))
  {
    if steps != [] {
      var p := steps[..|steps| - 1];
      RunCalls(p);
      assert forall i :: 0 <= i < |p| ==> steps[i] == p[i];
    }
  }

  // ---------------------------------------------------------------------------------------
  // update_remote
  // ---------------------------------------------------------------------------------------

  /** `QualityProfile._create_remote`: POST the encoded profile under its name. */
  method CreateRemote(cs: Catalogs, name: string, p: Profile) returns (r: Result<Action, ProfileError>)
    requires DistinctKeys(cs.qualities) && DistinctKeys(cs.formats)
    ensures r.Ok? <==> Encodable(cs, p)
    ensures r.Ok? ==> r.value.Post? && r.value.name == name && EncodesProfile(cs, p, r.value.body)
  {
    var body := EncodeProfile(cs, p);
    if body.Err? {
      return Err(body.error);
    }
    return Ok(Post(name, body.value));
  }

  /**
   * `QualityProfile._update_remote`: encode the whole profile, and PUT it, with the profile's
   * id and name, only when it differs from the remote one; the result says whether it did.
   */
  method UpdateProfile(cs: Catalogs, remote: Profile, id: int, name: string, p: Profile)
    returns (put: Option<Action>, r: Result<bool, ProfileError>)
    requires DistinctKeys(cs.qualities) && DistinctKeys(cs.formats)
    ensures r.Ok? <==> Encodable(cs, p)
    ensures r.Ok? ==> r.value == (p != remote)
    ensures put.Some? <==> r == Ok(true)
    ensures put.Some? ==> put.value.Put? && put.value.id == id && put.value.name == name &&
                          EncodesProfile(cs, p, put.value.body)
  {
    var body := EncodeProfile(cs, p);
    if body.Err? {
      return None, Err(body.error);
    }
    if p != remote {
      return Some(Put(id, name, body.value)), Ok(true);
    }
    return None, Ok(false);
  }

  /**
   * Processing local profile `name` in `update_remote`: a profile the remote does not have is
   * POSTed; for one it has, the id is looked up first, then the body encoded, and a PUT made
   * only if the profile differs from the remote one. A missing id or a body that does not
   * encode stops the run.
   */
  function UpdateStep(cs: Catalogs, remote: seq<(string, Profile)>, ids: seq<(string, int)>, name: string, p: Profile): Step
  {
    if name !in KeySet(remote) then
      if Encodable(cs, p) then Go(Some(PostCall(name))) else Stop
    else if name !in KeySet(ids) || !Encodable(cs, p) then Stop
    else if p != Get(remote, name).value then Go(Some(PutCall(Get(ids, name).value, name)))
    else Go(None)
  }

  function UpdateSteps(cs: Catalogs, local: seq<(string, Profile)>, remote: seq<(string, Profile)>, ids: seq<(string, int)>)
    : (steps: seq<Step>)
    ensures |steps| == |local|
    ensures forall i :: 0 <= i < |local| ==> steps[i] == UpdateStep(cs, remote, ids, local[i].0, local[i].1)
  {
    seq(|local|, i requires 0 <= i < |local| => UpdateStep(cs, remote, ids, local[i].0, local[i].1))
  }

  /** The calls `update_remote` makes, profile by profile in local order, up to the first failure. */
  function UpdatePlan(cs: Catalogs, local: seq<(string, Profile)>, remote: seq<(string, Profile)>, ids: seq<(string, int)>): Plan
  {
    Run(UpdateSteps(cs, local, remote, ids))
  }

  /** The action POSTs or PUTs, under `name`, a body encoding `p`. */
  ghost predicate Carries(cs: Catalogs, name: string, p: Profile, a: Action)
  {
    match a
    case Post(n, body) => n == name && EncodesProfile(cs, p, body)
    case Put(_, n, body) => n == name && EncodesProfile(cs, p, body)
    case Delete(_) => false
  }

  /** The action carries a body encoding the local profile of its name. */
  ghost predicate BodyFromLocal(cs: Catalogs, local: seq<(string, Profile)>, a: Action)
  {
    exists k :: 0 <= k < |local| && Carries(cs, local[k].0, local[k].1, a)
  }

  /** One iteration of `update_remote`'s loop: the call made for local profile `name`, or the error. */
  method SyncProfile(cs: Catalogs, remote: seq<(string, Profile)>, ids: seq<(string, int)>, name: string, p: Profile)
    returns (a: Option<Action>, err: Option<ProfileError>)
    requires DistinctKeys(cs.qualities) && DistinctKeys(cs.formats)
    ensures err.Some? <==> UpdateStep(cs, remote, ids, name, p) == Stop
    ensures err.None? ==> UpdateStep(cs, remote, ids, name, p) == Go(if a.Some? then Some(CallOf(a.value)) else None)
    ensures a.Some? ==> Carries(cs, name, p, a.value)
  {
    if name !in KeySet(remote) {
      var post := CreateRemote(cs, name, p);
      if post.Err? {
        return None, Some(post.error);
      }
      return Some(post.value), None;
    }
    var id := Get(ids, name);
    if id.None? {
      return None, Some(UnknownProfile(name));
    }
    var put, updated := UpdateProfile(cs, Get(remote, name).value, id.value, name, p);
    if updated.Err? {
      return None, Some(updated.error);
    }
    return put, None;
  }

  lemma FromLocal(cs: Catalogs, local: seq<(string, Profile)>, actions: seq<Action>, from: seq<int>)
    requires |from| == |actions|
    requires forall k :: 0 <= k < |actions| ==> 0 <= from[k] < |local| && Carries(cs, local[from[k]].0, local[from[k]].1, actions[k])
    ensures forall k :: 0 <= k < |actions| ==> BodyFromLocal(cs, local, actions[k])
  {
    forall k | 0 <= k < |actions| ensures BodyFromLocal(cs, local, actions[k]) {
      var j := from[k];
      assert Carries(cs, local[j].0, local[j].1, actions[k]);
    }
  }

  lemma CarriesAppend(cs: Catalogs, local: seq<(string, Profile)>, actions: seq<Action>, from: seq<int>, i: int, a: Action)
    requires |from| == |actions|
    requires forall k :: 0 <= k < |actions| ==> 0 <= from[k] < |local| && Carries(cs, local[from[k]].0, local[from[k]].1, actions[k])
    requires 0 <= i < |local| && Carries(cs, local[i].0, local[i].1, a)
    ensures var actions', from' := actions + [a], from + [i];
      forall k :: 0 <= k < |actions'| ==> 0 <= from'[k] < |local| && Carries(cs, local[from'[k]].0, local[from'[k]].1, actions'[k])
  {
  }

  /**
   * `SonarrQualityProfilesSettingsConfig.update_remote`: for each local profile in order, POST
   * it when the remote has no profile of that name, otherwise PUT it to the remote profile's
   * id when it differs from the remote one. The body is encoded for every local profile. The
   * first error ends the run, after the calls already made; otherwise the result says whether
   * any call was made.
   */
  method UpdateRemote(cs: Catalogs, local: ProfileSettings, remote: ProfileSettings, ids: seq<(string, int)>)
    returns (actions: seq<Action>, r: Result<bool, ProfileError>)
    requires DistinctKeys(cs.qualities) && DistinctKeys(cs.formats)
    ensures Calls(actions) == UpdatePlan(cs, local.definitions, remote.definitions, ids).calls
    ensures r.Ok? <==> !UpdatePlan(cs, local.definitions, remote.definitions, ids).failed
    ensures r.Ok? ==> r.value == (|actions| > 0)
    ensures forall i :: 0 <= i < |actions| ==> BodyFromLocal(cs, local.definitions, actions[i])
  {
    var defs := local.definitions;
    ghost var steps := UpdateSteps(cs, defs, remote.definitions, ids);
    ghost var from: seq<int> := [];
    var changed := false;
    actions := [];
    var i := 0;
    while i < |defs|
      invariant 0 <= i <= |defs|
      invariant Run(steps[..i]) == Plan(Calls(actions), false)
      invariant changed == (|actions| > 0)
      invariant |from| == |actions|
      invariant forall k :: 0 <= k < |actions| ==> 0 <= from[k] < |defs| && Carries(cs, defs[from[k]].0, defs[from[k]].1, actions[k])
    {
      var step, err := SyncProfile(cs, remote.definitions, ids, defs[i].0, defs[i].1);
      if err.Some? {
        RunStop(steps, i, Calls(actions));
        FromLocal(cs, defs, actions, from);
        return actions, Err(err.value);
      }
      RunAdvance(steps, i, actions, step);
      if step.Some? {
        CarriesAppend(cs, defs, actions, from, i, step.value);
        actions := actions + [step.value];
        from := from + [i];
        changed := true;
      }
      i := i + 1;
    }
    assert steps[..i] == steps;
    FromLocal(cs, defs, actions, from);
    return actions, Ok(changed);
  }

  /**
   * `update_remote` fails exactly when some local profile does not encode, or exists
   * remotely without an id in the remote's profile list.
   */
  lemma UpdatePlanFails(cs: Catalogs, local: seq<(string, Profile)>, remote: seq<(string, Profile)>, ids: seq<(string, int)>)
    ensures UpdatePlan(cs, local, remote, ids).failed <==>
      exists i :: 0 <= i < |local| && (!Encodable(cs, local[i].1) || (local[i].0 in KeySet(remote) && local[i].0 !in KeySet(ids)))
  {
    var steps := UpdateSteps(cs, local, remote, ids);
    RunFails(steps);
    if exists i :: 0 <= i < |local| && (!Encodable(cs, local[i].1) || (local[i].0 in KeySet(remote) && local[i].0 !in KeySet(ids))) {
      var i :| 0 <= i < |local| && (!Encodable(cs, local[i].1) || (local[i].0 in KeySet(remote) && local[i].0 !in KeySet(ids)));
      assert steps[i].Stop?;
    }
  }

  /**
   * The call `update_remote` makes for local profile `name` when nothing fails: a POST when
   * the remote has no profile of that name, a PUT to its id when the remote one differs.
   */
  predicate Planned(remote: seq<(string, Profile)>, ids: seq<(string, int)>, name: string, p: Profile, c: Call)
  {
    if name !in KeySet(remote) then c == PostCall(name)
    else name in KeySet(ids) && p != Get(remote, name).value && c == PutCall(Get(ids, name).value, name)
  }

  /**
   * Without a failure, `update_remote` POSTs exactly the local profiles the remote does not
   * have and PUTs, to their ids, exactly those it has with a different value.
   */
  lemma UpdatePlanCalls(cs: Catalogs, local: seq<(string, Profile)>, remote: seq<(string, Profile)>, ids: seq<(string, int)>)
    requires !UpdatePlan(cs, local, remote, ids).failed
    ensures |UpdatePlan(cs, local, remote, ids).calls| <= |local|
    ensures forall c :: c in UpdatePlan(cs, local, remote, ids).calls <==>
      exists i :: 0 <= i < |local| && Planned(remote, ids, local[i].0, local[i].1, c)
  {
    var steps := UpdateSteps(cs, local, remote, ids);
    RunCalls(steps);
    RunFails(steps);
    forall c, i | 0 <= i < |local| && Planned(remote, ids, local[i].0, local[i].1, c)
      ensures c in Run(steps).calls
    {
      assert !steps[i].Stop?;
      assert steps[i] == Go(Some(c));
    }
  }

  /**
   * Without a failure, `update_remote` makes no call exactly when every local profile exists
   * remotely with the same value.
   */
  lemma UpdatePlanIdle(cs: Catalogs, local: seq<(string, Profile)>, remote: seq<(string, Profile)>, ids: seq<(string, int)>)
    requires !UpdatePlan(cs, local, remote, ids).failed
    ensures UpdatePlan(cs, local, remote, ids).calls == [] <==>
      forall i :: 0 <= i < |local| ==> local[i].0 in KeySet(remote) && Get(remote, local[i].0).value == local[i].1
  {
    var steps := UpdateSteps(cs, local, remote, ids);
    RunCalls(steps);
    RunFails(steps);
    var calls := Run(steps).calls;
    if calls != [] {
      assert calls[0] in calls;
    }
    forall i | 0 <= i < |local| && steps[i].Go? && steps[i].call.Some?
      ensures calls != []
    {
      assert steps[i].call.value in calls;
    }
  }

  // ---------------------------------------------------------------------------------------
  // delete_remote
  // ---------------------------------------------------------------------------------------

  /**
   * Processing remote profile `name` in `delete_remote`: a profile not defined locally is
   * DELETEd when unmanaged profiles are to be deleted; its id is looked up only then, and a
   * missing id stops the run.
   */
  function DeleteStep(local: seq<(string, Profile)>, deleteUnmanaged: bool, ids: seq<(string, int)>, name: string): Step
  {
    if name in KeySet(local) || !deleteUnmanaged then Go(None)
    else if name !in KeySet(ids) then Stop
    else Go(Some(DeleteCall(Get(ids, name).value)))
  }

  function DeleteSteps(local: seq<(string, Profile)>, deleteUnmanaged: bool, remote: seq<(string, Profile)>, ids: seq<(string, int)>)
    : (steps: seq<Step>)
    ensures |steps| == |remote|
    ensures forall i :: 0 <= i < |remote| ==> steps[i] == DeleteStep(local, deleteUnmanaged, ids, remote[i].0)
  {
    seq(|remote|, i requires 0 <= i < |remote| => DeleteStep(local, deleteUnmanaged, ids, remote[i].0))
  }

  /** The calls `delete_remote` makes, remote profile by remote profile, up to the first failure. */
  function DeletePlan(local: seq<(string, Profile)>, deleteUnmanaged: bool, remote: seq<(string, Profile)>, ids: seq<(string, int)>): Plan
  {
    Run(DeleteSteps(local, deleteUnmanaged, remote, ids))
  }

  /**
   * `SonarrQualityProfilesSettingsConfig.delete_remote`: DELETE every remote profile that is
   * not defined locally, if `delete_unmanaged` is set; the result says whether any call was
   * made.
   */
  method DeleteRemote(local: ProfileSettings, remote: ProfileSettings, ids: seq<(string, int)>)
    returns (actions: seq<Action>, r: Result<bool, ProfileError>)
    ensures Calls(actions) == DeletePlan(local.definitions, local.deleteUnmanaged, remote.definitions, ids).calls
    ensures forall i :: 0 <= i < |actions| ==> actions[i].Delete?
    ensures r.Ok? <==> !DeletePlan(local.definitions, local.deleteUnmanaged, remote.definitions, ids).failed
    ensures r.Ok? ==> r.value == (|actions| > 0)
  {
    var defs := remote.definitions;
    ghost var steps := DeleteSteps(local.definitions, local.deleteUnmanaged, defs, ids);
    var changed := false;
    actions := [];
    var i := 0;
    while i < |defs|
      invariant 0 <= i <= |defs|
      invariant Run(steps[..i]) == Plan(Calls(actions), false)
      invariant forall k :: 0 <= k < |actions| ==> actions[k].Delete?
      invariant changed == (|actions| > 0)
    {
      var name := defs[i].0;
      var step: Option<Action> := None;
      if name !in KeySet(local.definitions) {
        if local.deleteUnmanaged {
          var id := Get(ids, name);
          if id.None? {
            RunStop(steps, i, Calls(actions));
            return actions, Err(UnknownProfile(name));
          }
          step := Some(Delete(id.value));
        }
      }
      RunAdvance(steps, i, actions, step);
      if step.Some? {
        actions := actions + [step.value];
        changed := true;
      }
      i := i + 1;
    }
    assert steps[..i] == steps;
    return actions, Ok(changed);
  }

  /**
   * Without `delete_unmanaged` nothing is deleted and nothing fails. With it, the run fails
   * exactly when an unmanaged remote profile has no id, and otherwise deletes exactly the ids
   * of the remote profiles not defined locally.
   */
  lemma DeletePlanMeaning(local: seq<(string, Profile)>, deleteUnmanaged: bool, remote: seq<(string, Profile)>, ids: seq<(string, int)>)
    ensures !deleteUnmanaged ==> DeletePlan(local, deleteUnmanaged, remote, ids) == Plan([], false)
    ensures DeletePlan(local, deleteUnmanaged, remote, ids).failed <==>
      deleteUnmanaged && exists i :: 0 <= i < |remote| && remote[i].0 !in KeySet(local) && remote[i].0 !in KeySet(ids)
    ensures !DeletePlan(local, deleteUnmanaged, remote, ids).failed ==> forall c ::
      c in DeletePlan(local, deleteUnmanaged, remote, ids).calls <==>
      deleteUnmanaged && exists i :: 0 <= i < |remote| && remote[i].0 !in KeySet(local) &&
                                     c == DeleteCall(Get(ids, remote[i].0).value)
  {
    var steps := DeleteSteps(local, deleteUnmanaged, remote, ids);
    RunFails(steps);
    if !deleteUnmanaged {
      RunIdle(steps);
    }
    if !Run(steps).failed {
      RunCalls(steps);
      forall c | deleteUnmanaged && exists i :: 0 <= i < |remote| && remote[i].0 !in KeySet(local) &&
                                               c == DeleteCall(Get(ids, remote[i].0).value)
        ensures c in Run(steps).calls
      {
        var i :| 0 <= i < |remote| && remote[i].0 !in KeySet(local) && c == DeleteCall(Get(ids, remote[i].0).value);
        assert steps[i] == Go(Some(c));
      }
    }
    if deleteUnmanaged && exists i :: 0 <= i < |remote| && remote[i].0 !in KeySet(local) && remote[i].0 !in KeySet(ids) {
      var i :| 0 <= i < |remote| && remote[i].0 !in KeySet(local) && remote[i].0 !in KeySet(ids);
      assert steps[i].Stop?;
    }
  }
}
