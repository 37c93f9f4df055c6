/**
 * The wire mapping of a profile's `qualities` and `upgrade_until`: the remote `items` list
 * (lowest priority first, every known quality present, disabled ones with `allowed` false)
 * and the remote `cutoff` id, including the synthetic ids given to locally defined groups.
 */
module QualityCodec {
  import opened Wrappers
  import opened Seqs
  import opened Dicts
  import opened ProfileModel
  import opened ProfileValidation

  // ---------------------------------------------------------------------------------------
  // Encoding the quality list
  // ---------------------------------------------------------------------------------------

  /** `_encode_quality_str`: a single-quality item; a name missing from the catalog is a key error. */
  function EncodeQualityStr(catalog: Catalog, name: string, allowed: bool): Result<Item, ProfileError>
  {
    match Get(catalog, name)
    case Some(d) => Ok(Single(d, allowed))
    case None => Err(UnknownQuality(name))
  }

  /** `order` lists every name of `ms` exactly once: one iteration order of a Python set. */
  ghost predicate Enumerates(order: seq<string>, ms: set<string>)
  {
    && (forall i, j :: 0 <= i < j < |order| ==> order[i] != order[j])
    && (forall x :: x in ms <==> x in order)
  }

  /** Each name of `order` resolves through the catalog to the definition at the same position. */
  ghost predicate ResolvesTo(catalog: Catalog, order: seq<string>, defs: seq<QualityDef>)
  {
    |defs| == |order| && forall j :: 0 <= j < |order| ==> Get(catalog, order[j]) == Some(defs[j])
  }

  /** `it` is the group item for group `name` with id `groupId`, members in some set order. */
  ghost predicate GroupEncodes(catalog: Catalog, groupId: int, name: string, members: set<string>, it: Item)
  {
    && it.Grouped? && it.id == groupId && it.name == name && it.allowed
    && exists order :: Enumerates(order, members) && ResolvesTo(catalog, order, it.members)
  }

  /** `QualityGroup.encode`: one enabled nested item per member, in the set's iteration order. */
  method EncodeGroup(catalog: Catalog, groupId: int, name: string, members: set<string>)
    returns (r: Result<Item, ProfileError>)
    ensures r.Ok? <==> members <= KeySet(catalog)
    ensures r.Ok? ==> GroupEncodes(catalog, groupId, name, members, r.value)
    ensures r.Err? ==> r.error.UnknownQuality? && r.error.quality in members - KeySet(catalog)
  {
    var rest := members;
    var defs: seq<QualityDef> := [];
    ghost var order: seq<string> := [];
    while rest != {}
      invariant rest <= members
      invariant Enumerates(order, members - rest)
      invariant ResolvesTo(catalog, order, defs)
      decreases rest
    {
      var m :| m in rest;
      var item := EncodeQualityStr(catalog, m, true);
      if item.Err? {
        return Err(item.error);
      }
      defs := defs + [item.value.quality];
      order := order + [m];
      rest := rest - {m};
    }
    assert members - rest == members;
    forall x | x in members ensures x in KeySet(catalog) {
      var j :| 0 <= j < |order| && order[j] == x;
    }
    return Ok(Grouped(groupId, name, defs, true));
  }

  /** The quality names enabled by a list of entries. */
  function EnabledNames(q: seq<Quality>): set<string>
  {
    if q == [] then {} else EnabledNames(q[..|q| - 1]) + Members(q[|q| - 1])
  }

  /** Whether every lookup made while encoding an entry succeeds. */
  predicate EntryResolvable(catalog: Catalog, groupIds: map<string, int>, e: Quality)
  {
    match e
    case Bare(n) => n in KeySet(catalog)
    case Group(n, ms) => n in groupIds && ms <= KeySet(catalog)
  }

  predicate Resolvable(catalog: Catalog, groupIds: map<string, int>, q: seq<Quality>)
  {
    forall i :: 0 <= i < |q| ==> EntryResolvable(catalog, groupIds, q[i])
  }

  /** `e` is the key error raised for a name missing from the catalog or the group ids. */
  predicate Unresolved(catalog: Catalog, groupIds: map<string, int>, e: ProfileError)
  {
    (e.UnknownQuality? && e.quality !in KeySet(catalog)) || (e.UnknownGroup? && e.group !in groupIds)
  }

  /** `it` is the enabled item that encodes entry `e`. */
  ghost predicate EncodesEntry(catalog: Catalog, groupIds: map<string, int>, e: Quality, it: Item)
  {
    match e
    case Bare(n) => n in KeySet(catalog) && it == Single(Get(catalog, n).value, true)
    case Group(n, ms) => n in groupIds && GroupEncodes(catalog, groupIds[n], n, ms, it)
  }

  /** One disabled item per catalog quality that is not enabled, in catalog order. */
  function Disabled(catalog: Catalog, enabled: set<string>): seq<Item>
  {
    if catalog == [] then []
    else
      var last := catalog[|catalog| - 1];
      Disabled(catalog[..|catalog| - 1], enabled) + (if last.0 in enabled then [] else [Single(last.1, false)])
  }

  lemma {:induction false} DisabledAreSingles(catalog: Catalog, enabled: set<string>)
    ensures forall i :: 0 <= i < |Disabled(catalog, enabled)| ==>
      Disabled(catalog, enabled)[i].Single? && !Disabled(catalog, enabled)[i].allowed
  {
    if catalog != [] {
      DisabledAreSingles(catalog[..|catalog| - 1], enabled);
    }
  }

  /** Every catalog quality that is not enabled has its disabled item. */
  lemma {:induction false} DisabledComplete(catalog: Catalog, enabled: set<string>, j: int)
    requires 0 <= j < |catalog| && catalog[j].0 !in enabled
    ensures Single(catalog[j].1, false) in Disabled(catalog, enabled)
  {
    var p := catalog[..|catalog| - 1];
    if j < |catalog| - 1 {
      assert p[j] == catalog[j];
      DisabledComplete(p, enabled, j);
    }
  }

  /**
   * The items of an encoded quality list, highest priority first: the local entries in their
   * order, then the disabled catalog qualities.
   */
  ghost predicate ForwardEncoding(catalog: Catalog, groupIds: map<string, int>, q: seq<Quality>, fwd: seq<Item>)
  {
    && |fwd| == |q| + |Disabled(catalog, EnabledNames(q))|
    && (forall i :: 0 <= i < |q| ==> EncodesEntry(catalog, groupIds, q[i], fwd[i]))
    && fwd[|q|..] == Disabled(catalog, EnabledNames(q))
  }

  /** The item `_encode_qualities` appends for one local entry. */
  method EncodeEntry(catalog: Catalog, groupIds: map<string, int>, quality: Quality)
    returns (r: Result<Item, ProfileError>)
    ensures r.Ok? <==> EntryResolvable(catalog, groupIds, quality)
    ensures r.Ok? ==> EncodesEntry(catalog, groupIds, quality, r.value)
    ensures r.Err? ==> Unresolved(catalog, groupIds, r.error)
  {
    match quality {
      case Group(name, members) =>
        if name !in groupIds {
          return Err(UnknownGroup(name));
        }
        r := EncodeGroup(catalog, groupIds[name], name, members);
      case Bare(name) =>
        r := EncodeQualityStr(catalog, name, true);
    }
  }

  lemma ForwardEncodingOfParts(catalog: Catalog, groupIds: map<string, int>, q: seq<Quality>, front: seq<Item>, fwd: seq<Item>)
    requires |front| == |q|
    requires forall k :: 0 <= k < |q| ==> EncodesEntry(catalog, groupIds, q[k], front[k])
    requires fwd == front + Disabled(catalog, EnabledNames(q))
    ensures ForwardEncoding(catalog, groupIds, q, fwd)
  {
    assert fwd[|q|..] == Disabled(catalog, EnabledNames(q));
    assert forall j :: 0 <= j < |q| ==> fwd[j] == front[j];
  }

  lemma EncodeEntryStep(catalog: Catalog, groupIds: map<string, int>, q: seq<Quality>, i: int)
    requires 0 <= i < |q|
    ensures Resolvable(catalog, groupIds, q[..i + 1]) <==>
      Resolvable(catalog, groupIds, q[..i]) && EntryResolvable(catalog, groupIds, q[i])
    ensures EnabledNames(q[..i + 1]) == EnabledNames(q[..i]) + Members(q[i])
  {
    assert q[..i + 1][..i] == q[..i];
    assert forall k :: 0 <= k < i ==> q[..i + 1][k] == q[..i][k];
  }

  lemma DisabledStep(catalog: Catalog, enabled: set<string>, k: int)
    requires 0 <= k < |catalog|
    ensures Disabled(catalog[..k + 1], enabled) ==
      Disabled(catalog[..k], enabled) + (if catalog[k].0 in enabled then [] else [Single(catalog[k].1, false)])
  {
    assert catalog[..k + 1][..k] == catalog[..k];
  }

  /**
   * `_encode_qualities`: emit every local entry enabled, then one disabled entry per catalog
   * quality not yet enabled, and reverse the whole list.
   */
  method EncodeQualities(catalog: Catalog, groupIds: map<string, int>, qualities: seq<Quality>)
    returns (r: Result<seq<Item>, ProfileError>)
    requires DistinctKeys(catalog)
    ensures r.Ok? <==> Resolvable(catalog, groupIds, qualities)
    ensures r.Ok? ==> ForwardEncoding(catalog, groupIds, qualities, Reverse(r.value))
    ensures r.Err? ==> Unresolved(catalog, groupIds, r.error)
  {
    var front, enabled := EncodeEnabled(catalog, groupIds, qualities);
    if front.Err? {
      return Err(front.error);
    }
    var json := AppendDisabled(catalog, enabled, front.value);
    ForwardEncodingOfParts(catalog, groupIds, qualities, front.value, json);
    ReverseReverse(json);
    return Ok(Reverse(json));
  }

  /**
   * The first loop of `_encode_qualities`: an enabled item per local entry, collecting the
   * quality names the entries enable.
   */
  method EncodeEnabled(catalog: Catalog, groupIds: map<string, int>, qualities: seq<Quality>)
    returns (r: Result<seq<Item>, ProfileError>, enabled: set<string>)
    ensures r.Ok? <==> Resolvable(catalog, groupIds, qualities)
    ensures r.Ok? ==> |r.value| == |qualities| && enabled == EnabledNames(qualities)
    ensures r.Ok? ==> forall k :: 0 <= k < |qualities| ==> EncodesEntry(catalog, groupIds, qualities[k], r.value[k])
    ensures r.Err? ==> Unresolved(catalog, groupIds, r.error)
  {
    var json: seq<Item> := [];
    enabled := {};
    var i := 0;
    while i < |qualities|
      invariant 0 <= i <= |qualities|
      invariant |json| == i
      invariant Resolvable(catalog, groupIds, qualities[..i])
      invariant forall k :: 0 <= k < i ==> EncodesEntry(catalog, groupIds, qualities[k], json[k])
      invariant enabled == EnabledNames(qualities[..i])
    {
      var quality := qualities[i];
      EncodeEntryStep(catalog, groupIds, qualities, i);
      var item := EncodeEntry(catalog, groupIds, quality);
      if item.Err? {
        assert !EntryResolvable(catalog, groupIds, qualities[i]);
        return Err(item.error), enabled;
      }
      json := json + [item.value];
      enabled := enabled + Members(quality);
      i := i + 1;
    }
    assert qualities[..i] == qualities;
    return Ok(json), enabled;
  }

  /** The second loop of `_encode_qualities`: a disabled item per catalog quality not enabled. */
  method AppendDisabled(catalog: Catalog, enabled: set<string>, json: seq<Item>) returns (out: seq<Item>)
    requires DistinctKeys(catalog)
    ensures out == json + Disabled(catalog, enabled)
  {
    out := json;
    var k := 0;
    while k < |catalog|
      invariant 0 <= k <= |catalog|
      invariant out == json + Disabled(catalog[..k], enabled)
    {
      var key := catalog[k].0;
      DisabledStep(catalog, enabled, k);
      if key !in enabled {
        GetAt(catalog, k);
        var item := EncodeQualityStr(catalog, key, false);
        out := out + [item.value];
      }
      k := k + 1;
    }
    assert catalog[..k] == catalog;
  }

  // ---------------------------------------------------------------------------------------
  // Decoding the quality list
  // ---------------------------------------------------------------------------------------

  /** One remote item as a local entry: a group when it has nested items, else a bare name. */
  function DecodeItem(it: Item): Result<Quality, ProfileError>
  {
    match it
    case Single(d, _) => Ok(Bare(d.name))
    case Grouped(_, name, members, _) =>
      if members != [] then Ok(Group(name, set d | d in members :: d.name))
      else Err(GroupWithoutItems(name))
  }

  /** The allowed items of `items`, decoded in the given order. */
  function DecodeAllowed(items: seq<Item>): Result<seq<Quality>, ProfileError>
  {
    if items == [] then Ok([])
    else if !items[0].allowed then DecodeAllowed(items[1..])
    else
      var head :- DecodeItem(items[0]);
      var tail :- DecodeAllowed(items[1..]);
      Ok([head] + tail)
  }

  /** `_decode_qualities`: walk the remote items from the last to the first, keeping allowed ones. */
  function DecodeQualities(items: seq<Item>): Result<seq<Quality>, ProfileError>
  {
    DecodeAllowed(Reverse(items))
  }

  /** Every catalog key is the name of the quality stored under it. */
  predicate KeysAreNames(catalog: Catalog)
  {
    forall i :: 0 <= i < |catalog| ==> catalog[i].0 == catalog[i].1.name
  }

  lemma MemberNames(catalog: Catalog, order: seq<string>, ms: set<string>, defs: seq<QualityDef>)
    requires KeysAreNames(catalog)
    requires Enumerates(order, ms) && ResolvesTo(catalog, order, defs)
    ensures (set d | d in defs :: d.name) == ms
  {
    forall j | 0 <= j < |order| ensures defs[j].name == order[j] {
      var i :| 0 <= i < |catalog| && catalog[i].0 == order[j] && catalog[i].1 == defs[j];
    }
    forall d | d in defs ensures d.name in ms {
      var j :| 0 <= j < |defs| && defs[j] == d;
    }
    forall x | x in ms ensures exists d :: d in defs && d.name == x {
      var j :| 0 <= j < |order| && order[j] == x;
      assert defs[j] in defs;
    }
  }

  lemma DecodeEncodedEntry(catalog: Catalog, groupIds: map<string, int>, e: Quality, it: Item)
    requires KeysAreNames(catalog)
    requires e.Group? ==> e.members != {}
    requires EncodesEntry(catalog, groupIds, e, it)
    ensures it.allowed && DecodeItem(it) == Ok(e)
  {
    match e
    case Bare(n) =>
      var i :| 0 <= i < |catalog| && catalog[i].0 == n && catalog[i].1 == Get(catalog, n).value;
    case Group(n, ms) =>
      var order :| Enumerates(order, ms) && ResolvesTo(catalog, order, it.members);
      var x :| x in ms;
      assert x in order;
      assert it.members != [];
      MemberNames(catalog, order, ms, it.members);
  }

  lemma {:induction false} DecodeAllowedAppend(a: seq<Item>, b: seq<Item>, x: seq<Quality>, y: seq<Quality>)
    requires DecodeAllowed(a) == Ok(x) && DecodeAllowed(b) == Ok(y)
    ensures DecodeAllowed(a + b) == Ok(x + y)
  {
    if a != [] {
      assert (a + b)[1..] == a[1..] + b;
      if a[0].allowed {
        var h := DecodeItem(a[0]).value;
        var t := DecodeAllowed(a[1..]).value;
        assert x == [h] + t;
        DecodeAllowedAppend(a[1..], b, t, y);
        assert [h] + (t + y) == x + y;
      } else {
        DecodeAllowedAppend(a[1..], b, x, y);
      }
    } else {
      assert a + b == b && x + y == y;
    }
  }

  lemma {:induction false} DecodeAllowedSkipsDisabled(items: seq<Item>)
    requires forall i :: 0 <= i < |items| ==> !items[i].allowed
    ensures DecodeAllowed(items) == Ok([])
  {
    if items != [] {
      DecodeAllowedSkipsDisabled(items[1..]);
    }
  }

  lemma {:induction false} DecodeAllowedFront(catalog: Catalog, groupIds: map<string, int>, q: seq<Quality>, front: seq<Item>)
    requires KeysAreNames(catalog)
    requires forall i :: 0 <= i < |q| && q[i].Group? ==> q[i].members != {}
    requires |front| == |q|
    requires forall i :: 0 <= i < |q| ==> EncodesEntry(catalog, groupIds, q[i], front[i])
    ensures DecodeAllowed(front) == Ok(q)
  {
    if q != [] {
      DecodeEncodedEntry(catalog, groupIds, q[0], front[0]);
      DecodeAllowedFront(catalog, groupIds, q[1..], front[1..]);
      assert [q[0]] + q[1..] == q;
    }
  }

  /**
   * Round trip of the quality list: decoding any encoding of a local list gives the list back,
   * in order, with groups equal as member sets — whenever every catalog key is its quality's
   * name and every group has a member.
   */
  lemma {:induction false} QualitiesRoundTrip(catalog: Catalog, groupIds: map<string, int>, q: seq<Quality>, items: seq<Item>)
    requires KeysAreNames(catalog)
    requires forall i :: 0 <= i < |q| && q[i].Group? ==> q[i].members != {}
    requires ForwardEncoding(catalog, groupIds, q, Reverse(items))
    ensures DecodeQualities(items) == Ok(q)
  {
    var fwd := Reverse(items);
    DisabledAreSingles(catalog, EnabledNames(q));
    var front := fwd[..|q|];
    var rest := fwd[|q|..];
    assert fwd == front + rest;
    DecodeAllowedFront(catalog, groupIds, q, front);
    DecodeAllowedSkipsDisabled(rest);
    DecodeAllowedAppend(front, rest, q, []);
    assert q + [] == q;
  }

  // ---------------------------------------------------------------------------------------
  // Synthetic group ids
  // ---------------------------------------------------------------------------------------

  /** `[q for q in qualities if isinstance(q, QualityGroup)]` */
  function Groups(q: seq<Quality>): seq<Quality>
  {
    if q == [] then [] else Groups(q[..|q| - 1]) + (if q[|q| - 1].Group? then [q[|q| - 1]] else [])
  }

  /** `{group.name: 1000 + i for i, group in enumerate(groups, 1)}`: a later group of the same name wins. */
  function GroupIdsOf(gs: seq<Quality>): map<string, int>
  {
    if gs == [] then map[] else GroupIdsOf(gs[..|gs| - 1])[gs[|gs| - 1].name := 1000 + |gs|]
  }

  /** The ids `_create_remote` and `_update_remote` give the groups of a profile. */
  function GroupIds(q: seq<Quality>): map<string, int>
  {
    GroupIdsOf(Groups(q))
  }

  lemma {:induction false} GroupsAreGroupEntries(q: seq<Quality>)
    ensures forall g :: g in Groups(q) <==> g in q && g.Group?
  {
    if q != [] {
      GroupsAreGroupEntries(q[..|q| - 1]);
      assert q == q[..|q| - 1] + [q[|q| - 1]];
    }
  }

  lemma {:induction false} GroupIdsKeys(gs: seq<Quality>)
    ensures forall n :: n in GroupIdsOf(gs) <==> exists k :: 0 <= k < |gs| && gs[k].name == n
  {
    if gs != [] {
      var p := gs[..|gs| - 1];
      GroupIdsKeys(p);
      assert forall k :: 0 <= k < |p| ==> gs[k] == p[k];
    }
  }

  /** The group ids lie in `1001 .. 1000 + |groups|`. */
  lemma {:induction false} GroupIdsRange(gs: seq<Quality>)
    ensures forall n :: n in GroupIdsOf(gs) ==> 1001 <= GroupIdsOf(gs)[n] <= 1000 + |gs|
  {
    if gs != [] {
      GroupIdsRange(gs[..|gs| - 1]);
    }
  }

  /**
   * A group's id is `1000 + k` for its 1-based position `k` among the groups, the last such
   * position when several groups share a name.
   */
  lemma {:induction false} GroupIdsPositions(gs: seq<Quality>)
    ensures forall k :: 0 <= k < |gs| && (forall k' :: k < k' < |gs| ==> gs[k'].name != gs[k].name) ==>
      gs[k].name in GroupIdsOf(gs) && GroupIdsOf(gs)[gs[k].name] == 1001 + k
  {
    if gs != [] {
      var p := gs[..|gs| - 1];
      GroupIdsPositions(p);
      forall k | 0 <= k < |gs| && (forall k' :: k < k' < |gs| ==> gs[k'].name != gs[k].name)
        ensures gs[k].name in GroupIdsOf(gs) && GroupIdsOf(gs)[gs[k].name] == 1001 + k
      {
        if k < |p| {
          assert gs[k] == p[k];
          assert forall k' :: k < k' < |p| ==> p[k'] == gs[k'];
        }
      }
    }
  }

  /** No two group names share an id. */
  lemma {:induction false} GroupIdsInjective(gs: seq<Quality>)
    ensures forall a, b :: a in GroupIdsOf(gs) && b in GroupIdsOf(gs) && GroupIdsOf(gs)[a] == GroupIdsOf(gs)[b] ==> a == b
  {
    if gs != [] {
      var p := gs[..|gs| - 1];
      GroupIdsInjective(p);
      GroupIdsRange(p);
    }
  }

  /** The names with a group id are exactly the names of the group entries. */
  lemma GroupIdNames(q: seq<Quality>)
    ensures forall n :: n in GroupIds(q) <==> exists k :: 0 <= k < |q| && q[k].Group? && q[k].name == n
  {
    GroupsAreGroupEntries(q);
    GroupIdsKeys(Groups(q));
    forall n | n in GroupIds(q) ensures exists k :: 0 <= k < |q| && q[k].Group? && q[k].name == n {
      var k :| 0 <= k < |Groups(q)| && Groups(q)[k].name == n;
      assert Groups(q)[k] in Groups(q);
    }
    forall k | 0 <= k < |q| && q[k].Group? ensures q[k].name in GroupIds(q) {
      assert q[k] in Groups(q);
      var j :| 0 <= j < |Groups(q)| && Groups(q)[j] == q[k];
    }
  }

  // ---------------------------------------------------------------------------------------
  // The cutoff
  // ---------------------------------------------------------------------------------------

  /** The id an item is looked up by: the group's own id, else its quality's id. */
  function ItemId(it: Item): int
  {
    match it
    case Single(d, _) => d.id
    case Grouped(id, _, _, _) => id
  }

  function ItemName(it: Item): string
  {
    match it
    case Single(d, _) => d.name
    case Grouped(_, n, _, _) => n
  }

  /**
   * `_upgrade_until_decoder`: the name of the first item whose id is the cutoff; a cutoff no
   * item carries means the remote is inconsistent.
   */
  function DecodeCutoff(items: seq<Item>, cutoff: int): (r: Result<string, ProfileError>)
    ensures r.Err? <==> forall i :: 0 <= i < |items| ==> ItemId(items[i]) != cutoff
    ensures r.Err? ==> r.error == CutoffNotFound(cutoff)
    ensures r.Ok? ==> exists i :: 0 <= i < |items| && ItemId(items[i]) == cutoff && ItemName(items[i]) == r.value &&
                                 (forall j :: 0 <= j < i ==> ItemId(items[j]) != cutoff)
  {
    if items == [] then Err(CutoffNotFound(cutoff))
    else if ItemId(items[0]) == cutoff then Ok(ItemName(items[0]))
    else
      var r := DecodeCutoff(items[1..], cutoff);
      assert forall i :: 1 <= i < |items| ==> items[i] == items[1..][i - 1];
      r
  }

  /** `quality_definitions[name]["id"]` */
  function DefinitionId(catalog: Catalog, name: string): Result<int, ProfileError>
  {
    match Get(catalog, name)
    case Some(d) => Ok(d.id)
    case None => Err(UnknownQuality(name))
  }

  /**
   * `_upgrade_until_encoder`: without `upgrade_until`, the id of the first entry (an index
   * error when there is none); otherwise the id of the group of that name if there is one,
   * else the quality definition's id.
   */
  function EncodeCutoff(catalog: Catalog, groupIds: map<string, int>, qualities: seq<Quality>, upgradeUntil: Option<string>)
    : Result<int, ProfileError>
  {
    if upgradeUntil.None? || upgradeUntil.value == "" then
      if |qualities| == 0 then Err(NoQualities)
      else match qualities[0]
      case Group(n, _) => if n in groupIds then Ok(groupIds[n]) else Err(UnknownGroup(n))
      case Bare(n) => DefinitionId(catalog, n)
    else if upgradeUntil.value in groupIds then Ok(groupIds[upgradeUntil.value])
    else DefinitionId(catalog, upgradeUntil.value)
  }

  /** The entry the encoded cutoff stands for: `upgrade_until`, or the first entry when it is empty. */
  function CutoffTarget(qualities: seq<Quality>, upgradeUntil: Option<string>): string
    requires |qualities| >= 1
  {
    if upgradeUntil.None? || upgradeUntil.value == "" then qualities[0].name else upgradeUntil.value
  }

  predicate DistinctIds(catalog: Catalog)
  {
    forall i, j :: 0 <= i < j < |catalog| ==> catalog[i].1.id != catalog[j].1.id
  }

  /** No catalog id falls among the synthetic ids of `groups` groups. */
  predicate OutsideGroupRange(catalog: Catalog, groups: int)
  {
    forall i :: 0 <= i < |catalog| ==> !(1000 < catalog[i].1.id <= 1000 + groups)
  }

  /** Some item carries id `c`, and every item carrying it is named `t`. */
  ghost predicate IdNamesOnly(items: seq<Item>, c: int, t: string)
  {
    && (exists i :: 0 <= i < |items| && ItemId(items[i]) == c)
    && (forall i :: 0 <= i < |items| && ItemId(items[i]) == c ==> ItemName(items[i]) == t)
  }

  lemma {:induction false} DisabledFromCatalog(catalog: Catalog, enabled: set<string>)
    ensures forall i :: 0 <= i < |Disabled(catalog, enabled)| ==>
      exists j :: 0 <= j < |catalog| && Disabled(catalog, enabled)[i] == Single(catalog[j].1, false)
  {
    if catalog != [] {
      var p := catalog[..|catalog| - 1];
      var d := Disabled(p, enabled);
      DisabledFromCatalog(p, enabled);
      forall i | 0 <= i < |Disabled(catalog, enabled)|
        ensures exists j :: 0 <= j < |catalog| && Disabled(catalog, enabled)[i] == Single(catalog[j].1, false)
      {
        assert Disabled(catalog, enabled) == d + (if catalog[|catalog| - 1].0 in enabled then [] else [Single(catalog[|catalog| - 1].1, false)]);
        if i < |d| {
          var j :| 0 <= j < |p| && d[i] == Single(p[j].1, false);
          assert catalog[j] == p[j];
          assert Disabled(catalog, enabled)[i] == Single(catalog[j].1, false);
        } else {
          var j := |catalog| - 1;
          assert Disabled(catalog, enabled)[i] == Single(catalog[j].1, false);
        }
      }
    } else {
      assert Disabled(catalog, enabled) == [];
    }
  }

  /** The definition found under `n` is the catalog entry at some index whose key is `n`. */
  lemma GetIndex(catalog: Catalog, n: string) returns (a: int)
    requires n in KeySet(catalog)
    ensures 0 <= a < |catalog| && catalog[a].0 == n && Get(catalog, n) == Some(catalog[a].1)
  {
    a :| 0 <= a < |catalog| && catalog[a].0 == n && catalog[a].1 == Get(catalog, n).value;
  }

  lemma GroupCutoffOnly(catalog: Catalog, q: seq<Quality>, fwd: seq<Item>, t: string, k: int)
    requires OutsideGroupRange(catalog, |Groups(q)|)
    requires ForwardEncoding(catalog, GroupIds(q), q, fwd)
    requires 0 <= k < |q| && q[k].Group? && q[k].name == t
    ensures t in GroupIds(q) && IdNamesOnly(fwd, GroupIds(q)[t], t)
  {
    var gids := GroupIds(q);
    GroupIdNames(q);
    GroupIdsRange(Groups(q));
    GroupIdsInjective(Groups(q));
    var c := gids[t];
    assert ItemId(fwd[k]) == c;
    DisabledFromCatalog(catalog, EnabledNames(q));
    forall i | 0 <= i < |fwd| && ItemId(fwd[i]) == c ensures ItemName(fwd[i]) == t {
      if i < |q| {
        match q[i]
        case Bare(n) =>
          var a := GetIndex(catalog, n);
        case Group(n, _) =>
      }
    }
  }

  lemma DefinitionCutoffOnly(catalog: Catalog, q: seq<Quality>, fwd: seq<Item>, t: string, k: int)
    requires KeysAreNames(catalog) && DistinctIds(catalog)
    requires OutsideGroupRange(catalog, |Groups(q)|)
    requires ForwardEncoding(catalog, GroupIds(q), q, fwd)
    requires 0 <= k < |q| && q[k] == Bare(t)
    ensures t in KeySet(catalog) && IdNamesOnly(fwd, Get(catalog, t).value.id, t)
  {
    var b := GetIndex(catalog, t);
    var c := catalog[b].1.id;
    assert ItemId(fwd[k]) == c;
    GroupIdsRange(Groups(q));
    DisabledFromCatalog(catalog, EnabledNames(q));
    forall i | 0 <= i < |fwd| && ItemId(fwd[i]) == c ensures ItemName(fwd[i]) == t {
      if i < |q| {
        match q[i]
        case Bare(n) =>
          var a := GetIndex(catalog, n);
          assert a == b;
        case Group(n, _) =>
      } else {
        assert fwd[i] == Disabled(catalog, EnabledNames(q))[i - |q|];
      }
    }
  }

  lemma DecodeCutoffOfReverse(items: seq<Item>, c: int, t: string)
    requires IdNamesOnly(Reverse(items), c, t)
    ensures DecodeCutoff(items, c) == Ok(t)
  {
    var fwd := Reverse(items);
    var i :| 0 <= i < |fwd| && ItemId(fwd[i]) == c;
    assert items[|items| - 1 - i] == fwd[i];
    forall j | 0 <= j < |items| && ItemId(items[j]) == c ensures ItemName(items[j]) == t {
      assert items[j] == fwd[|items| - 1 - j];
    }
  }

  /**
   * Round trip of the cutoff: for the items a quality list encodes to with the synthetic
   * group ids, and an `upgrade_until` that names a top-level entry (or is empty),
   * decoding the encoded cutoff against the encoded items names that entry (the first entry
   * when `upgrade_until` is empty) — provided catalog keys are quality names, catalog ids are
   * distinct, and no catalog id falls in the synthetic group-id range.
   */
  lemma CutoffRoundTrip(catalog: Catalog, q: seq<Quality>, upgradeUntil: Option<string>, items: seq<Item>)
    requires KeysAreNames(catalog) && DistinctIds(catalog)
    requires |q| >= 1
    requires OutsideGroupRange(catalog, |Groups(q)|)
    requires upgradeUntil.Some? && upgradeUntil.value != "" ==> upgradeUntil.value in TopNames(q)
    requires ForwardEncoding(catalog, GroupIds(q), q, Reverse(items))
    ensures EncodeCutoff(catalog, GroupIds(q), q, upgradeUntil).Ok?
    ensures DecodeCutoff(items, EncodeCutoff(catalog, GroupIds(q), q, upgradeUntil).value) == Ok(CutoffTarget(q, upgradeUntil))
  {
    var gids := GroupIds(q);
    var t := CutoffTarget(q, upgradeUntil);
    var k: int;
    if upgradeUntil.None? || upgradeUntil.value == "" {
      k := 0;
    } else {
      GroupIdNames(q);
      k :| 0 <= k < |q| && q[k].name == t;
      if t in gids {
        k :| 0 <= k < |q| && q[k].Group? && q[k].name == t;
      }
    }
    if q[k].Group? {
      CutoffGroupRoundTrip(catalog, q, upgradeUntil, items, k);
    } else {
      CutoffBareRoundTrip(catalog, q, upgradeUntil, items, k);
    }
  }

  /** `CutoffRoundTrip` when the cutoff names a group. */
  lemma CutoffGroupRoundTrip(catalog: Catalog, q: seq<Quality>, upgradeUntil: Option<string>, items: seq<Item>, k: int)
    requires |q| >= 1
    requires OutsideGroupRange(catalog, |Groups(q)|)
    requires ForwardEncoding(catalog, GroupIds(q), q, Reverse(items))
    requires 0 <= k < |q| && q[k].Group? && q[k].name == CutoffTarget(q, upgradeUntil)
    requires upgradeUntil.None? || upgradeUntil.value == "" ==> k == 0
    ensures EncodeCutoff(catalog, GroupIds(q), q, upgradeUntil).Ok?
    ensures DecodeCutoff(items, EncodeCutoff(catalog, GroupIds(q), q, upgradeUntil).value) == Ok(CutoffTarget(q, upgradeUntil))
  {
    var t := CutoffTarget(q, upgradeUntil);
    GroupCutoffOnly(catalog, q, Reverse(items), t, k);
    assert EncodeCutoff(catalog, GroupIds(q), q, upgradeUntil) == Ok(GroupIds(q)[t]);
    DecodeCutoffOfReverse(items, GroupIds(q)[t], t);
  }

  /** `CutoffRoundTrip` when the cutoff names a quality definition outside any group. */
  lemma CutoffBareRoundTrip(catalog: Catalog, q: seq<Quality>, upgradeUntil: Option<string>, items: seq<Item>, k: int)
    requires |q| >= 1
    requires KeysAreNames(catalog) && DistinctIds(catalog)
    requires OutsideGroupRange(catalog, |Groups(q)|)
    requires ForwardEncoding(catalog, GroupIds(q), q, Reverse(items))
    requires 0 <= k < |q| && q[k] == Bare(CutoffTarget(q, upgradeUntil))
    requires upgradeUntil.None? || upgradeUntil.value == "" ==> k == 0
    requires upgradeUntil.Some? && upgradeUntil.value != "" ==> upgradeUntil.value !in GroupIds(q)
    ensures EncodeCutoff(catalog, GroupIds(q), q, upgradeUntil).Ok?
    ensures DecodeCutoff(items, EncodeCutoff(catalog, GroupIds(q), q, upgradeUntil).value) == Ok(CutoffTarget(q, upgradeUntil))
  {
    var t := CutoffTarget(q, upgradeUntil);
    DefinitionCutoffOnly(catalog, q, Reverse(items), t, k);
    assert EncodeCutoff(catalog, GroupIds(q), q, upgradeUntil) == Ok(Get(catalog, t).value.id);
    DecodeCutoffOfReverse(items, Get(catalog, t).value.id, t);
  }
}
