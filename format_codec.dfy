/**
 * The custom-format scores of a quality profile on the wire: decoding keeps the nonzero
 * scores sorted by descending score then name; encoding sends the local scores followed by a
 * zero score for every other custom format the remote knows.
 */
module FormatCodec {
  import opened Wrappers
  import opened Dicts
  import opened Text
  import opened ProfileModel
  import opened ProfileValidation

  // ---------------------------------------------------------------------------------------
  // Decoding
  // ---------------------------------------------------------------------------------------

  /** The integer a decoded score stands for (`cast(int, cfs.score)`). */
  function ScoreValue(f: FormatScore): int
  {
    if f.score.Some? then f.score.value else 0
  }

  /** The sort key `(-score, name)`: a higher score first, then the smaller name. */
  predicate Before(a: FormatScore, b: FormatScore)
  {
    ScoreValue(a) > ScoreValue(b) || (ScoreValue(a) == ScoreValue(b) && LexLe(a.name, b.name))
  }

  predicate SortedByKey(s: seq<FormatScore>)
  {
    forall i, j :: 0 <= i < j < |s| ==> Before(s[i], s[j])
  }

  /** The remote entries with a nonzero score, as local scores, in remote order. */
  function Kept(remote: seq<RemoteFormatScore>): (r: seq<FormatScore>)
    ensures forall f :: f in r <==> exists i :: 0 <= i < |remote| && remote[i].score != 0 &&
                                             f == FormatScore(remote[i].name, Some(remote[i].score))
  {
    if remote == [] then []
    else
      var p := remote[..|remote| - 1];
      var last := remote[|remote| - 1];
      assert forall i :: 0 <= i < |p| ==> remote[i] == p[i];
      Kept(p) + (if last.score != 0 then [FormatScore(last.name, Some(last.score))] else [])
  }

  /** Places `x` before the first element it sorts before. */
  function Insert(x: FormatScore, s: seq<FormatScore>): seq<FormatScore>
  {
    if s == [] then [x]
    else if Before(x, s[0]) then [x] + s
    else [s[0]] + Insert(x, s[1..])
  }

  function Sort(s: seq<FormatScore>): seq<FormatScore>
  {
    if s == [] then [] else Insert(s[0], Sort(s[1..]))
  }

  /** `_custom_formats_decoder` */
  function DecodeFormats(remote: seq<RemoteFormatScore>): seq<FormatScore>
  {
    Sort(Kept(remote))
  }

  lemma BeforeTotal(a: FormatScore, b: FormatScore)
    ensures Before(a, b) || Before(b, a)
  {
    LexLeTotal(a.name, b.name);
  }

  lemma BeforeTransitive(a: FormatScore, b: FormatScore, c: FormatScore)
    requires Before(a, b) && Before(b, c)
    ensures Before(a, c)
  {
    if ScoreValue(a) == ScoreValue(b) == ScoreValue(c) {
      LexLeTransitive(a.name, b.name, c.name);
    }
  }

  /** Two decoded scores neither of which sorts strictly first are the same score. */
  lemma BeforeAntisymmetric(a: FormatScore, b: FormatScore)
    requires a.score.Some? && b.score.Some?
    requires Before(a, b) && Before(b, a)
    ensures a == b
  {
    LexLeAntisymmetric(a.name, b.name);
  }

  /** Every entry carries a score, as every decoded entry does. */
  predicate AllScored(s: seq<FormatScore>)
  {
    forall i :: 0 <= i < |s| ==> s[i].score.Some?
  }

  /** A sorted sequence stays sorted when an entry that sorts before all of it is put in front. */
  lemma SortedCons(h: FormatScore, u: seq<FormatScore>)
    requires SortedByKey(u)
    requires forall e | e in u :: Before(h, e)
    ensures SortedByKey([h] + u)
  {
    var v := [h] + u;
    forall i, j | 0 <= i < j < |v| ensures Before(v[i], v[j]) {
      assert v[j] == u[j - 1];
      if i > 0 {
        assert v[i] == u[i - 1];
      }
    }
  }

  lemma {:induction false} InsertSorted(x: FormatScore, s: seq<FormatScore>)
    requires SortedByKey(s)
    ensures SortedByKey(Insert(x, s))
    ensures multiset(Insert(x, s)) == multiset(s) + multiset{x}
  {
    if s == [] {
    } else if Before(x, s[0]) {
      forall e | e in s ensures Before(x, e) {
        var j :| 0 <= j < |s| && s[j] == e;
        if j > 0 {
          BeforeTransitive(x, s[0], s[j]);
        }
      }
      SortedCons(x, s);
    } else {
      BeforeTotal(x, s[0]);
      var t := s[1..];
      SortedTail(s);
      InsertSorted(x, t);
      var u := Insert(x, t);
      forall e | e in u ensures Before(s[0], e) {
        assert e in multiset(u);
        if e != x {
          assert e in multiset(t);
          var j :| 0 <= j < |t| && t[j] == e;
          assert s[j + 1] == e;
        }
      }
      SortedCons(s[0], u);
      assert s == [s[0]] + t;
    }
  }

  lemma {:induction false} SortSorted(s: seq<FormatScore>)
    ensures SortedByKey(Sort(s))
    ensures multiset(Sort(s)) == multiset(s)
  {
    if s != [] {
      SortSorted(s[1..]);
      InsertSorted(s[0], Sort(s[1..]));
      assert s == [s[0]] + s[1..];
    }
  }

  /**
   * The decoder keeps exactly the remote entries with a nonzero score, as many times as they
   * occur, sorted by descending score and then ascending name.
   */
  lemma DecodeFormatsSpec(remote: seq<RemoteFormatScore>)
    ensures SortedByKey(DecodeFormats(remote))
    ensures multiset(DecodeFormats(remote)) == multiset(Kept(remote))
    ensures forall f :: f in DecodeFormats(remote) <==>
      exists i :: 0 <= i < |remote| && remote[i].score != 0 && f == FormatScore(remote[i].name, Some(remote[i].score))
  {
    SortSorted(Kept(remote));
    forall f ensures f in DecodeFormats(remote) <==> f in Kept(remote) {
      assert f in DecodeFormats(remote) <==> f in multiset(DecodeFormats(remote));
      assert f in Kept(remote) <==> f in multiset(Kept(remote));
    }
  }

  /**
   * A multiset of scored entries has one sorted arrangement: the decoder's order is fully
   * determined, whatever order the remote sends.
   */
  lemma {:induction false} SortedUnique(a: seq<FormatScore>, b: seq<FormatScore>)
    requires AllScored(a) && SortedByKey(a) && SortedByKey(b)
    requires multiset(a) == multiset(b)
    ensures a == b
  {
    if a != [] {
      SortedHeadsEqual(a, b);
      SortedTail(a);
      SortedTail(b);
      assert AllScored(a[1..]) by {
        forall i | 0 <= i < |a[1..]| ensures a[1..][i].score.Some? {
          assert a[1..][i] == a[i + 1];
        }
      }
      MultisetTail(a);
      MultisetTail(b);
      SortedUnique(a[1..], b[1..]);
    } else {
      assert |b| == |multiset(b)|;
    }
  }

  lemma MultisetTail(s: seq<FormatScore>)
    requires s != []
    ensures multiset(s[1..]) == multiset(s) - multiset{s[0]}
  {
    assert s == [s[0]] + s[1..];
  }

  lemma SortedTail(s: seq<FormatScore>)
    requires SortedByKey(s) && s != []
    ensures SortedByKey(s[1..])
  {
    forall i, j | 0 <= i < j < |s[1..]| ensures Before(s[1..][i], s[1..][j]) {
      assert s[1..][i] == s[i + 1] && s[1..][j] == s[j + 1];
    }
  }

  /** Two sorted arrangements of the same scored entries start with the same entry. */
  lemma SortedHeadsEqual(a: seq<FormatScore>, b: seq<FormatScore>)
    requires AllScored(a) && SortedByKey(a) && SortedByKey(b)
    requires multiset(a) == multiset(b) && a != []
    ensures b != [] && a[0] == b[0]
  {
    assert a[0] in multiset(b);
    assert b[0] in multiset(a);
    var i :| 0 <= i < |a| && a[i] == b[0];
    var j :| 0 <= j < |b| && b[j] == a[0];
    if i > 0 && j > 0 {
      assert Before(a[0], a[i]) && Before(b[0], b[j]);
      BeforeAntisymmetric(a[0], b[0]);
    }
  }

  // ---------------------------------------------------------------------------------------
  // Encoding
  // ---------------------------------------------------------------------------------------

  /** The names a list of scores mentions. */
  function NameSet(s: seq<FormatScore>): (ns: set<string>)
    ensures forall i :: 0 <= i < |s| ==> s[i].name in ns
    ensures forall n :: n in ns ==> exists i :: 0 <= i < |s| && s[i].name == n
  {
    set i | 0 <= i < |s| :: s[i].name
  }

  /** `api_customformats[name].id`, a KeyError for a format the remote does not know. */
  function FormatId(catalog: FormatCatalog, name: string): Result<int, ProfileError>
  {
    match Get(catalog, name)
    case Some(id) => Ok(id)
    case None => Err(UnknownFormat(name))
  }

  /** The entries sent for the local scores, in local order; the first unknown name fails. */
  function EncodeLocal(catalog: FormatCatalog, s: seq<FormatScore>): Result<seq<FormatItem>, ProfileError>
  {
    if s == [] then Ok([])
    else
      var init :- EncodeLocal(catalog, s[..|s| - 1]);
      var id :- FormatId(catalog, s[|s| - 1].name);
      Ok(init + [FormatItem(id, s[|s| - 1].name, s[|s| - 1].score)])
  }

  /** A zero-score entry for every catalog format not in `named`, in catalog order. */
  function Padding(catalog: FormatCatalog, named: set<string>): seq<FormatItem>
  {
    if catalog == [] then []
    else
      var last := catalog[|catalog| - 1];
      Padding(catalog[..|catalog| - 1], named) + (if last.0 in named then [] else [FormatItem(last.1, last.0, Some(0))])
  }

  /** What `_custom_formats_encoder` produces. */
  function FormatItems(catalog: FormatCatalog, scores: seq<FormatScore>): Result<seq<FormatItem>, ProfileError>
  {
    var local :- EncodeLocal(catalog, scores);
    Ok(local + Padding(catalog, NameSet(scores)))
  }

  lemma {:induction false} EncodeLocalErrSticky(catalog: FormatCatalog, s: seq<FormatScore>, i: int)
    requires 0 <= i <= |s|
    requires EncodeLocal(catalog, s[..i]).Err?
    ensures EncodeLocal(catalog, s) == EncodeLocal(catalog, s[..i])
  {
    if i < |s| {
      assert s[..|s| - 1][..i] == s[..i];
      EncodeLocalErrSticky(catalog, s[..|s| - 1], i);
    } else {
      assert s[..i] == s;
    }
  }

  lemma EncodeLocalStep(catalog: FormatCatalog, s: seq<FormatScore>, i: int, items: seq<FormatItem>)
    requires 0 <= i < |s|
    requires EncodeLocal(catalog, s[..i]) == Ok(items)
    ensures Get(catalog, s[i].name).None? ==> EncodeLocal(catalog, s[..i + 1]) == Err(UnknownFormat(s[i].name))
    ensures Get(catalog, s[i].name).Some? ==>
      EncodeLocal(catalog, s[..i + 1]) == Ok(items + [FormatItem(Get(catalog, s[i].name).value, s[i].name, s[i].score)])
  {
    assert s[..i + 1][..i] == s[..i];
  }

  lemma NameSetStep(s: seq<FormatScore>, i: int)
    requires 0 <= i < |s|
    ensures NameSet(s[..i + 1]) == NameSet(s[..i]) + {s[i].name}
  {
    assert forall k :: 0 <= k < i ==> s[..i + 1][k] == s[..i][k];
  }

  lemma PaddingStep(catalog: FormatCatalog, named: set<string>, j: int)
    requires 0 <= j < |catalog|
    ensures Padding(catalog[..j + 1], named) ==
      Padding(catalog[..j], named) + (if catalog[j].0 in named then [] else [FormatItem(catalog[j].1, catalog[j].0, Some(0))])
  {
    assert catalog[..j + 1][..j] == catalog[..j];
  }

  lemma KeySetStep(catalog: FormatCatalog, j: int)
    requires DistinctKeys(catalog)
    requires 0 <= j < |catalog|
    ensures catalog[j].0 !in KeySet(catalog[..j])
    ensures KeySet(catalog[..j + 1]) == KeySet(catalog[..j]) + {catalog[j].0}
  {
    assert forall k :: 0 <= k < j ==> catalog[..j + 1][k] == catalog[..j][k];
  }

  lemma FormatItemsOfLocal(catalog: FormatCatalog, scores: seq<FormatScore>, local: seq<FormatItem>)
    requires EncodeLocal(catalog, scores) == Ok(local)
    ensures FormatItems(catalog, scores) == Ok(local + Padding(catalog, NameSet(scores)))
  {
  }

  /**
   * `_custom_formats_encoder`: one entry per local score, in local order, with the catalog's
   * format id, then a score-0 entry for each catalog format not named locally, in catalog
   * order; a local name missing from the catalog is an error.
   */
  method EncodeFormats(catalog: FormatCatalog, scores: seq<FormatScore>) returns (r: Result<seq<FormatItem>, ProfileError>)
    requires DistinctKeys(catalog)
    ensures r == FormatItems(catalog, scores)
  {
    var local, names := EncodeScores(catalog, scores);
    if local.Err? {
      return Err(local.error);
    }
    var items := AppendPadding(catalog, names, local.value);
    FormatItemsOfLocal(catalog, scores, local.value);
    return Ok(items);
  }

  /** The first loop of `_custom_formats_encoder`: the local entries, and the names they use. */
  method EncodeScores(catalog: FormatCatalog, scores: seq<FormatScore>)
    returns (r: Result<seq<FormatItem>, ProfileError>, names: set<string>)
    ensures r == EncodeLocal(catalog, scores)
    ensures names == NameSet(scores)
  {
    names := {};
    var items: seq<FormatItem> := [];
    var i := 0;
    while i < |scores|
      invariant 0 <= i <= |scores|
      invariant EncodeLocal(catalog, scores[..i]) == Ok(items)
      invariant names == NameSet(scores[..i])
    {
      var cf := scores[i];
      EncodeLocalStep(catalog, scores, i, items);
      NameSetStep(scores, i);
      match Get(catalog, cf.name)
      case None =>
        EncodeLocalErrSticky(catalog, scores, i + 1);
        return Err(UnknownFormat(cf.name)), NameSet(scores);
      case Some(id) =>
        items := items + [FormatItem(id, cf.name, cf.score)];
        names := names + {cf.name};
        i := i + 1;
    }
    assert scores[..i] == scores;
    return Ok(items), names;
  }

  /** The second loop of `_custom_formats_encoder`: a score-0 entry for each catalog format not yet named. */
  method AppendPadding(catalog: FormatCatalog, named: set<string>, local: seq<FormatItem>) returns (items: seq<FormatItem>)
    requires DistinctKeys(catalog)
    ensures items == local + Padding(catalog, named)
  {
    var names := named;
    var pad := [];
    var j := 0;
    while j < |catalog|
      invariant 0 <= j <= |catalog|
      invariant pad == Padding(catalog[..j], named)
      invariant names == named + KeySet(catalog[..j])
    {
      var (name, id) := catalog[j];
      PaddingStep(catalog, named, j);
      KeySetStep(catalog, j);
      assert name in names <==> name in named;
      if name !in names {
        pad := pad + [FormatItem(id, name, Some(0))];
        names := names + {name};
      }
      j := j + 1;
    }
    assert catalog[..j] == catalog;
    items := local + pad;
  }

  /**
   * The local entries: one per local score, in local order, carrying the catalog's format id,
   * when every name is in the catalog; otherwise the first unknown name is reported.
   */
  lemma {:induction false} EncodeLocalMeaning(catalog: FormatCatalog, s: seq<FormatScore>)
    ensures EncodeLocal(catalog, s).Ok? <==> forall i :: 0 <= i < |s| ==> s[i].name in KeySet(catalog)
    ensures EncodeLocal(catalog, s).Ok? ==>
      && |EncodeLocal(catalog, s).value| == |s|
      && forall i :: 0 <= i < |s| ==>
           EncodeLocal(catalog, s).value[i] == FormatItem(Get(catalog, s[i].name).value, s[i].name, s[i].score)
    ensures EncodeLocal(catalog, s).Err? ==>
      exists i :: 0 <= i < |s| && s[i].name !in KeySet(catalog) && EncodeLocal(catalog, s).error == UnknownFormat(s[i].name) &&
                  (forall j :: 0 <= j < i ==> s[j].name in KeySet(catalog))
  {
    if s != [] {
      var p := s[..|s| - 1];
      EncodeLocalMeaning(catalog, p);
      assert forall i :: 0 <= i < |p| ==> s[i] == p[i];
    }
  }

  /** The catalog positions the padding entries come from. */
  function PaddingPositions(catalog: FormatCatalog, named: set<string>): (idx: seq<int>)
    ensures |idx| == |Padding(catalog, named)|
  {
    if catalog == [] then []
    else
      var last := |catalog| - 1;
      PaddingPositions(catalog[..last], named) + (if catalog[last].0 in named then [] else [last])
  }

  /** The `k`-th padding entry is the score-0 entry of a catalog format not in `named`. */
  lemma {:induction false} PaddingAt(catalog: FormatCatalog, named: set<string>, k: int)
    requires 0 <= k < |Padding(catalog, named)|
    ensures 0 <= PaddingPositions(catalog, named)[k] < |catalog|
    ensures catalog[PaddingPositions(catalog, named)[k]].0 !in named
    ensures Padding(catalog, named)[k] ==
      FormatItem(catalog[PaddingPositions(catalog, named)[k]].1, catalog[PaddingPositions(catalog, named)[k]].0, Some(0))
  {
    var last := |catalog| - 1;
    var p := catalog[..last];
    if k < |Padding(p, named)| {
      PaddingAt(p, named, k);
      assert PaddingPositions(catalog, named)[k] == PaddingPositions(p, named)[k];
      assert Padding(catalog, named)[k] == Padding(p, named)[k];
    }
  }

  /** Padding entries keep the catalog's order. */
  lemma {:induction false} PaddingOrdered(catalog: FormatCatalog, named: set<string>, k: int, l: int)
    requires 0 <= k < l < |Padding(catalog, named)|
    ensures PaddingPositions(catalog, named)[k] < PaddingPositions(catalog, named)[l]
  {
    var last := |catalog| - 1;
    var p := catalog[..last];
    var pp := PaddingPositions(p, named);
    assert PaddingPositions(catalog, named)[k] == pp[k];
    if l < |pp| {
      PaddingOrdered(p, named, k, l);
      assert PaddingPositions(catalog, named)[l] == pp[l];
    } else {
      PaddingAt(p, named, k);
    }
  }

  /**
   * The padding is the catalog filtered to the formats not in `named`, in catalog order, each
   * with score 0: `idx` gives, for each padding entry, the catalog position it comes from.
   */
  lemma PaddingIndices(catalog: FormatCatalog, named: set<string>) returns (idx: seq<int>)
    ensures |idx| == |Padding(catalog, named)|
    ensures forall k :: 0 <= k < |idx| ==>
      && 0 <= idx[k] < |catalog| && catalog[idx[k]].0 !in named
      && Padding(catalog, named)[k] == FormatItem(catalog[idx[k]].1, catalog[idx[k]].0, Some(0))
    ensures forall k, l :: 0 <= k < l < |idx| ==> idx[k] < idx[l]
  {
    idx := PaddingPositions(catalog, named);
    forall k | 0 <= k < |idx|
      ensures 0 <= idx[k] < |catalog| && catalog[idx[k]].0 !in named
      ensures Padding(catalog, named)[k] == FormatItem(catalog[idx[k]].1, catalog[idx[k]].0, Some(0))
    {
      PaddingAt(catalog, named, k);
    }
    forall k, l | 0 <= k < l < |idx| ensures idx[k] < idx[l] {
      PaddingOrdered(catalog, named, k, l);
    }
  }

  /** Every catalog format not in `named` has its score-0 entry in the padding. */
  lemma {:induction false} PaddingComplete(catalog: FormatCatalog, named: set<string>, j: int)
    requires 0 <= j < |catalog| && catalog[j].0 !in named
    ensures FormatItem(catalog[j].1, catalog[j].0, Some(0)) in Padding(catalog, named)
  {
    var p := catalog[..|catalog| - 1];
    if j < |catalog| - 1 {
      assert p[j] == catalog[j];
      PaddingComplete(p, named, j);
    }
  }

  /** No two catalog entries that appear in the padding share a name. */
  lemma PaddingNames(catalog: FormatCatalog, named: set<string>)
    requires DistinctKeys(catalog)
    ensures forall k, l :: 0 <= k < l < |Padding(catalog, named)| ==> Padding(catalog, named)[k].name != Padding(catalog, named)[l].name
    ensures forall k :: 0 <= k < |Padding(catalog, named)| ==> Padding(catalog, named)[k].name !in named
    ensures forall n :: n in KeySet(catalog) && n !in named ==> exists k :: 0 <= k < |Padding(catalog, named)| && Padding(catalog, named)[k].name == n
  {
    var idx := PaddingIndices(catalog, named);
    forall n | n in KeySet(catalog) && n !in named
      ensures exists k :: 0 <= k < |Padding(catalog, named)| && Padding(catalog, named)[k].name == n
    {
      var j :| 0 <= j < |catalog| && catalog[j].0 == n;
      PaddingComplete(catalog, named, j);
    }
  }

  /** Every name of `ks` is carried by exactly one entry, and no entry carries another name. */
  ghost predicate NamesExactly(items: seq<FormatItem>, ks: set<string>)
  {
    && (forall k, l :: 0 <= k < l < |items| ==> items[k].name != items[l].name)
    && (forall n :: n in ks <==> exists k :: 0 <= k < |items| && items[k].name == n)
  }

  lemma ConcatNamesExactly(local: seq<FormatItem>, pad: seq<FormatItem>, named: set<string>, ks: set<string>)
    requires named <= ks
    requires NamesExactly(local, named)
    requires NamesExactly(pad, ks - named)
    ensures NamesExactly(local + pad, ks)
  {
    var out := local + pad;
    forall k, l | 0 <= k < l < |out| ensures out[k].name != out[l].name {
      if k < |local| && l >= |local| {
        assert out[k] == local[k] && out[l] == pad[l - |local|];
        assert local[k].name in named;
        assert pad[l - |local|].name in ks - named;
      } else if k >= |local| {
        assert out[k] == pad[k - |local|] && out[l] == pad[l - |local|];
      }
    }
    forall n | n in ks ensures exists k :: 0 <= k < |out| && out[k].name == n {
      if n in named {
        var k :| 0 <= k < |local| && local[k].name == n;
        assert out[k] == local[k];
      } else {
        assert n in ks - named;
        var k :| 0 <= k < |pad| && pad[k].name == n;
        assert out[|local| + k] == pad[k];
      }
    }
    forall k | 0 <= k < |out| ensures out[k].name in ks {
      if k >= |local| {
        assert out[k] == pad[k - |local|];
        assert pad[k - |local|].name in ks - named;
      } else {
        assert out[k] == local[k];
        assert local[k].name in named;
      }
    }
  }

  lemma LocalNamesExactly(catalog: FormatCatalog, scores: seq<FormatScore>)
    requires DistinctNames(scores)
    requires forall i :: 0 <= i < |scores| ==> scores[i].name in KeySet(catalog)
    ensures EncodeLocal(catalog, scores).Ok?
    ensures NamesExactly(EncodeLocal(catalog, scores).value, NameSet(scores))
  {
    EncodeLocalMeaning(catalog, scores);
  }

  lemma PaddingNamesExactly(catalog: FormatCatalog, named: set<string>)
    requires DistinctKeys(catalog)
    ensures NamesExactly(Padding(catalog, named), KeySet(catalog) - named)
  {
    var pad := Padding(catalog, named);
    PaddingNames(catalog, named);
    var idx := PaddingIndices(catalog, named);
    forall k | 0 <= k < |pad| ensures pad[k].name in KeySet(catalog) {
      assert pad[k].name == catalog[idx[k]].0;
    }
  }

  /**
   * With distinct local names that the catalog all knows, the encoded list names every
   * catalog format exactly once and nothing else.
   */
  lemma FormatItemsCoverCatalog(catalog: FormatCatalog, scores: seq<FormatScore>)
    requires DistinctKeys(catalog)
    requires DistinctNames(scores)
    requires forall i :: 0 <= i < |scores| ==> scores[i].name in KeySet(catalog)
    ensures FormatItems(catalog, scores).Ok?
    ensures NamesExactly(FormatItems(catalog, scores).value, KeySet(catalog))
  {
    LocalNamesExactly(catalog, scores);
    PaddingNamesExactly(catalog, NameSet(scores));
    ConcatNamesExactly(EncodeLocal(catalog, scores).value, Padding(catalog, NameSet(scores)), NameSet(scores), KeySet(catalog));
  }

  // ---------------------------------------------------------------------------------------
  // Reading back what was sent
  // ---------------------------------------------------------------------------------------

  /** The name and score the remote reports for an entry it was sent; a null score counts as 0. */
  function ReadBack(item: FormatItem): RemoteFormatScore
  {
    RemoteFormatScore(item.name, if item.score.Some? then item.score.value else 0)
  }

  function Received(items: seq<FormatItem>): (remote: seq<RemoteFormatScore>)
    ensures |remote| == |items|
    ensures forall i :: 0 <= i < |items| ==> remote[i] == ReadBack(items[i])
  {
    seq(|items|, i requires 0 <= i < |items| => ReadBack(items[i]))
  }

  /** Every score is present and nonzero, as in every list the decoder produces. */
  predicate Decodable(s: seq<FormatScore>)
  {
    forall i :: 0 <= i < |s| ==> s[i].score.Some? && s[i].score.value != 0
  }

  lemma ReceivedConcat(a: seq<FormatItem>, b: seq<FormatItem>)
    ensures Received(a + b) == Received(a) + Received(b)
  {
    assert forall i :: 0 <= i < |a + b| ==> Received(a + b)[i] == (Received(a) + Received(b))[i];
  }

  lemma {:induction false} KeptConcat(a: seq<RemoteFormatScore>, b: seq<RemoteFormatScore>)
    ensures Kept(a + b) == Kept(a) + Kept(b)
  {
    if b == [] {
      assert a + b == a;
    } else {
      var init := b[..|b| - 1];
      KeptConcat(a, init);
      assert (a + b)[..|a + b| - 1] == a + init;
    }
  }

  /** Entries that all score 0 are all dropped. */
  lemma KeptZeros(remote: seq<RemoteFormatScore>)
    requires forall i :: 0 <= i < |remote| ==> remote[i].score == 0
    ensures Kept(remote) == []
  {
  }

  /** The padding reads back as nothing: only the local entries can be decoded. */
  lemma SentPaddingDropped(catalog: FormatCatalog, s: seq<FormatScore>, items: seq<FormatItem>)
    requires FormatItems(catalog, s) == Ok(items)
    ensures Kept(Received(items)) == Kept(Received(EncodeLocal(catalog, s).value))
  {
    var local := EncodeLocal(catalog, s).value;
    var pad := Padding(catalog, NameSet(s));
    assert items == local + pad;
    ReceivedConcat(local, pad);
    KeptConcat(Received(local), Received(pad));
    var idx := PaddingIndices(catalog, NameSet(s));
    KeptZeros(Received(pad));
    assert Kept(Received(local)) + [] == Kept(Received(local));
  }

  /** The last local score is encoded as the last local entry. */
  lemma EncodeLocalLast(catalog: FormatCatalog, s: seq<FormatScore>, local: seq<FormatItem>)
    requires EncodeLocal(catalog, s) == Ok(local) && s != []
    ensures EncodeLocal(catalog, s[..|s| - 1]).Ok?
    ensures local == EncodeLocal(catalog, s[..|s| - 1]).value
                     + [FormatItem(Get(catalog, s[|s| - 1].name).value, s[|s| - 1].name, s[|s| - 1].score)]
  {
  }

  /** One present, nonzero score reads back as itself. */
  lemma KeptSingle(x: FormatScore, id: int)
    requires x.score.Some? && x.score.value != 0
    ensures Kept(Received([FormatItem(id, x.name, x.score)])) == [x]
  {
    assert Received([FormatItem(id, x.name, x.score)]) == [RemoteFormatScore(x.name, x.score.value)];
  }

  /** The local entries read back, in local order, as the local scores when each is present and nonzero. */
  lemma {:induction false} KeptLocal(catalog: FormatCatalog, s: seq<FormatScore>, local: seq<FormatItem>)
    requires EncodeLocal(catalog, s) == Ok(local)
    requires Decodable(s)
    ensures Kept(Received(local)) == s
  {
    if s != [] {
      var p := s[..|s| - 1];
      var x := s[|s| - 1];
      EncodeLocalLast(catalog, s, local);
      var init := EncodeLocal(catalog, p).value;
      var item := FormatItem(Get(catalog, x.name).value, x.name, x.score);
      assert Decodable(p) by {
        forall i | 0 <= i < |p| ensures p[i].score.Some? && p[i].score.value != 0 {
          assert p[i] == s[i];
        }
      }
      KeptLocal(catalog, p, init);
      ReceivedConcat(init, [item]);
      KeptConcat(Received(init), Received([item]));
      KeptSingle(x, item.format);
      assert s == p + [x];
    }
  }

  /** Present, nonzero scores that the catalog all knows are sent and read back unchanged, in order. */
  lemma SentReadBack(catalog: FormatCatalog, s: seq<FormatScore>)
    requires forall i :: 0 <= i < |s| ==> s[i].name in KeySet(catalog)
    requires Decodable(s)
    ensures FormatItems(catalog, s).Ok?
    ensures Kept(Received(FormatItems(catalog, s).value)) == s
  {
    EncodeLocalMeaning(catalog, s);
    SentPaddingDropped(catalog, s, FormatItems(catalog, s).value);
    KeptLocal(catalog, s, EncodeLocal(catalog, s).value);
  }

  /**
   * The scores a profile sends decode back to the same list exactly when that list is already
   * in the decoder's order (descending score, then name) and every score is present and
   * nonzero. Any other list reads back as a different value.
   */
  lemma FormatsRoundTrip(catalog: FormatCatalog, s: seq<FormatScore>, items: seq<FormatItem>)
    requires FormatItems(catalog, s) == Ok(items)
    ensures DecodeFormats(Received(items)) == s <==> SortedByKey(s) && Decodable(s)
  {
    if SortedByKey(s) && Decodable(s) {
      EncodeLocalMeaning(catalog, s);
      SentReadBack(catalog, s);
      SortSorted(s);
      SortedUnique(s, Sort(s));
    }
    if DecodeFormats(Received(items)) == s {
      DecodeFormatsSpec(Received(items));
      forall i | 0 <= i < |s| ensures s[i].score.Some? && s[i].score.value != 0 {
        assert s[i] in DecodeFormats(Received(items));
      }
    }
  }

  /** A list out of the decoder's order reads back reordered: `b` at 5 before `a` at 10 comes back with `a` first. */
  lemma UnsortedFormatsReordered()
    ensures FormatItems([("a", 1), ("b", 2)], [FormatScore("b", Some(5)), FormatScore("a", Some(10))]).Ok?
    ensures DecodeFormats(Received(FormatItems([("a", 1), ("b", 2)], [FormatScore("b", Some(5)), FormatScore("a", Some(10))]).value))
            == [FormatScore("a", Some(10)), FormatScore("b", Some(5))]
  {
    var catalog := [("a", 1), ("b", 2)];
    var s := [FormatScore("b", Some(5)), FormatScore("a", Some(10))];
    assert catalog[1].0 in KeySet(catalog) && catalog[0].0 in KeySet(catalog);
    SentReadBack(catalog, s);
    assert Sort([s[1]]) == [s[1]];
    assert Sort(s) == Insert(s[0], [s[1]]);
  }

  /** A score of 0 is sent but not read back. */
  lemma ZeroScoreDropped()
    ensures FormatItems([("a", 1)], [FormatScore("a", Some(0))]).Ok?
    ensures DecodeFormats(Received(FormatItems([("a", 1)], [FormatScore("a", Some(0))]).value)) == []
  {
    var catalog := [("a", 1)];
    var zero := [FormatScore("a", Some(0))];
    assert catalog[0].0 in KeySet(catalog);
    EncodeLocalMeaning(catalog, zero);
    var local := EncodeLocal(catalog, zero).value;
    SentPaddingDropped(catalog, zero, FormatItems(catalog, zero).value);
    KeptZeros(Received(local));
  }
}
