/**
 * Identities of source expressions: a digest over the path, the semantic digest and the number of
 * earlier sites that share both.
 */
module FunctionIds {
  import BundleIr
  import opened ByteOrder
  import opened Json
  import opened JsValues
  import opened Outcomes
  import opened SemanticJson
  import opened Unicode

  /** A discovered site: its normalized path and the projection that carries its meaning. */
  datatype PreparedSite = PreparedSite(path: JsString, projection: Json)

  /** The digest function as lowercase hexadecimal, and the conversion of integers to numbers, both left open. */
  datatype Platform = Platform(digest: Bytes -> JsString, number: nat -> Number, numerals: Numerals)

  const MAX_SAFE_INTEGER := 0x1F_FFFF_FFFF_FFFF
  const DIGEST_LENGTH := 64

  predicate IsDigestText(text: JsString) {
    |text| == DIGEST_LENGTH && forall i :: 0 <= i < |text| ==> 48 <= text[i] <= 57 || 97 <= text[i] <= 102
  }

  /** Digests have their fixed form, integers up to the safe limit convert exactly, numbers print faithfully. */
  ghost predicate Proper(platform: Platform) {
    && (forall bytes :: IsDigestText(platform.digest(bytes)))
    && (forall n: nat :: n <= MAX_SAFE_INTEGER ==> IsFinite(platform.number(n)))
    && (forall n: nat, m: nat ::
       n <= MAX_SAFE_INTEGER && m <= MAX_SAFE_INTEGER && platform.number(n) == platform.number(m) ==> n == m)
    && Faithful(platform.numerals)
  }

  // ----- one identity

  function Segments(path: JsString): (r: seq<JsString>)
    ensures r != []
  {
    if path == [] then [[]]
    else
      var rest := Segments(path[1..]);
      if path[0] == 47 then [[]] + rest else [[path[0]] + rest[0]] + rest[1..]
  }

  predicate IsLetter(u: CodeUnit) {
    65 <= u <= 90 || 97 <= u <= 122
  }

  predicate IsWindowsAbsolute(path: JsString) {
    || (|path| >= 3 && IsLetter(path[0]) && path[1] == 58 && (path[2] == 92 || path[2] == 47))
    || (|path| >= 2 && path[0] == 92 && path[1] == 92)
  }

  /** A project-relative path with forward slashes and without empty or dot segments. */
  predicate IsNormalizedPath(path: JsString) {
    && LooselyFormed(path) && path != [] && 92 !in path && path[0] != 47 && !IsWindowsAbsolute(path)
    && forall i :: 0 <= i < |Segments(path)| ==>
       Segments(path)[i] != [] && Segments(path)[i] != [46] && Segments(path)[i] != [46, 46]
  }

  function Identity(platform: Platform, path: JsString, ordinal: nat, semanticSha256: JsString): Json {
    JArray([JString(Text("semantscript-function-id")), JNumber(ONE), JString(path), JNumber(platform.number(ordinal)),
      JString(semanticSha256)])
  }

  const ID_PREFIX: JsString := [110, 102, 95]

  function CreateFunctionId(platform: Platform, path: JsString, ordinal: nat,
      semanticSha256: JsString): Option<JsString>
  {
    if !IsNormalizedPath(path) || ordinal > MAX_SAFE_INTEGER || !IsDigestText(semanticSha256) then None
    else match SemanticJsonBytes(platform.numerals, Identity(platform, path, ordinal, semanticSha256))
      case None => None
      case Some(bytes) => Some(ID_PREFIX + platform.digest(bytes))
  }

  function SemanticSha256(platform: Platform, projection: Json): Option<JsString> {
    match SemanticJsonBytes(platform.numerals, projection)
    case None => None
    case Some(bytes) => Some(platform.digest(bytes))
  }

  // ----- ids of a list of sites

  /** What a site contributes to its identity besides its place among equals. */
  datatype SiteKey = SiteKey(path: JsString, semanticSha256: JsString)

  function KeyOf(platform: Platform, site: PreparedSite): Option<SiteKey> {
    match SemanticSha256(platform, site.projection)
    case None => None
    case Some(sha) => Some(SiteKey(site.path, sha))
  }

  function Keys(platform: Platform, sites: seq<PreparedSite>): (r: seq<Option<SiteKey>>)
    ensures |r| == |sites|
  {
    seq(|sites|, i requires 0 <= i < |sites| => KeyOf(platform, sites[i]))
  }

  /** How many entries of the list are the key. */
  function CountOf(keys: seq<Option<SiteKey>>, key: SiteKey): nat {
    if keys == [] then 0
    else CountOf(keys[..|keys| - 1], key) + if keys[|keys| - 1] == Some(key) then 1 else 0
  }

  function IdFor(platform: Platform, key: SiteKey, ordinal: nat): Option<JsString> {
    CreateFunctionId(platform, key.path, ordinal, key.semanticSha256)
  }

  /** The id of a site: its key and the number of sites before it that share the key. */
  function IdAt(platform: Platform, keys: seq<Option<SiteKey>>, i: nat): Option<JsString>
    requires i < |keys|
  {
    match keys[i]
    case None => None
    case Some(key) => IdFor(platform, key, CountOf(keys[..i], key))
  }

  /** The text under which occurrences are counted. */
  function DuplicateKey(key: SiteKey): JsString {
    key.path + [0] + key.semanticSha256
  }

  /** A digest has a fixed length, so the text determines path and digest, whatever the path holds. */
  lemma {:induction false} DuplicateKeysDiffer(a: SiteKey, b: SiteKey)
    requires |a.semanticSha256| == |b.semanticSha256| && DuplicateKey(a) == DuplicateKey(b)
    ensures a == b
  {
    var x, y := DuplicateKey(a), DuplicateKey(b);
    assert |a.path| == |b.path|;
    assert x[..|a.path|] == a.path && y[..|b.path|] == b.path;
    assert x[|a.path| + 1..] == a.semanticSha256 && y[|b.path| + 1..] == b.semanticSha256;
  }

  type Counts = map<JsString, nat>

  function Lookup(counts: Counts, key: JsString): nat {
    if key in counts then counts[key] else 0
  }

  ghost predicate CountsAre(counts: Counts, keys: seq<Option<SiteKey>>) {
    forall key: SiteKey ::
      |key.semanticSha256| == DIGEST_LENGTH ==> Lookup(counts, DuplicateKey(key)) == CountOf(keys, key)
  }

  lemma {:induction false} CountingOneMore(counts: Counts, keys: seq<Option<SiteKey>>, key: SiteKey)
    requires CountsAre(counts, keys) && |key.semanticSha256| == DIGEST_LENGTH
    ensures CountsAre(counts[DuplicateKey(key) := CountOf(keys, key) + 1], keys + [Some(key)])
  {
    var more: Counts := counts[DuplicateKey(key) := CountOf(keys, key) + 1];
    assert (keys + [Some(key)])[..|keys|] == keys;
    forall other: SiteKey | |other.semanticSha256| == DIGEST_LENGTH
      ensures Lookup(more, DuplicateKey(other)) == CountOf(keys + [Some(key)], other)
    {
      assert Lookup(counts, DuplicateKey(other)) == CountOf(keys, other);
      if DuplicateKey(other) == DuplicateKey(key) { DuplicateKeysDiffer(other, key); }
    }
  }

  lemma {:induction false} DigestsHaveFixedLength(platform: Platform, site: PreparedSite)
    requires Proper(platform) && KeyOf(platform, site).Some?
    ensures |KeyOf(platform, site).value.semanticSha256| == DIGEST_LENGTH
  {
  }

  /** The id of the next site after those counted, and the counts with this site included. */
  method IdentifySite(platform: Platform, site: PreparedSite, before: Counts, ghost earlier: seq<Option<SiteKey>>)
    returns (functionId: Option<JsString>, counts: Counts)
    requires Proper(platform) && CountsAre(before, earlier)
    ensures KeyOf(platform, site).None? ==> functionId.None?
    ensures KeyOf(platform, site).Some? ==>
              && functionId ==
                 IdFor(platform, KeyOf(platform, site).value, CountOf(earlier, KeyOf(platform, site).value))
              && CountsAre(counts, earlier + [KeyOf(platform, site)])
  {
    counts := before;
    var semanticSha256 := SemanticSha256(platform, site.projection);
    if semanticSha256.None? {
      return None, counts;
    }
    var key := SiteKey(site.path, semanticSha256.value);
    DigestsHaveFixedLength(platform, site);
    var duplicateKey := DuplicateKey(key);
    var duplicateOrdinal := Lookup(before, duplicateKey);
    CountingOneMore(before, earlier, key);
    counts := before[duplicateKey := duplicateOrdinal + 1];
    functionId := IdFor(platform, key, duplicateOrdinal);
  }

  /** The listed ids are those of the first sites. */
  ghost predicate IdsAre(platform: Platform, keys: seq<Option<SiteKey>>, ids: seq<JsString>) {
    |ids| <= |keys| && forall i :: 0 <= i < |ids| ==> IdAt(platform, keys, i) == Some(ids[i])
  }

  lemma {:induction false} OneMoreId(platform: Platform, keys: seq<Option<SiteKey>>, ids: seq<JsString>, id: JsString)
    requires IdsAre(platform, keys, ids) && |ids| < |keys| && IdAt(platform, keys, |ids|) == Some(id)
    ensures IdsAre(platform, keys, ids + [id])
  {
  }

  lemma {:induction false} NextIdIs(platform: Platform, sites: seq<PreparedSite>, n: nat)
    requires n < |sites|
    ensures var keys := Keys(platform, sites);
            && keys[n] == KeyOf(platform, sites[n]) && keys[..n + 1] == keys[..n] + [keys[n]]
            && IdAt(platform, keys, n) == match keys[n] case None => None
               case Some(key) => IdFor(platform, key, CountOf(keys[..n], key))
  {
  }

  /** Assigns an id to every site in order, or fails at the first site that cannot have one. */
  method AssignFunctionIds(platform: Platform, sites: seq<PreparedSite>) returns (ids: Option<seq<JsString>>)
    requires Proper(platform)
    ensures ids.None? ==> exists i :: 0 <= i < |sites| && IdAt(platform, Keys(platform, sites), i).None?
    ensures ids.Some? ==> |ids.value| == |sites| && IdsAre(platform, Keys(platform, sites), ids.value)
  {
    ghost var keys := Keys(platform, sites);
    var duplicateCounts: Counts := map[];
    var planned: seq<JsString> := [];
    for n := 0 to |sites|
      invariant |planned| == n && IdsAre(platform, keys, planned)
      invariant CountsAre(duplicateCounts, keys[..n])
    {
      NextIdIs(platform, sites, n);
      var functionId;
      functionId, duplicateCounts := IdentifySite(platform, sites[n], duplicateCounts, keys[..n]);
      if functionId.None? {
        assert IdAt(platform, keys, n).None?;
        return None;
      }
      OneMoreId(platform, keys, planned, functionId.value);
      planned := planned + [functionId.value];
    }
    ids := Some(planned);
  }

  // ----- ids tell sites apart

  function IdentityBytes(platform: Platform, keys: seq<Option<SiteKey>>, i: nat): Bytes
    requires i < |keys| && IdAt(platform, keys, i).Some?
  {
    var key := keys[i].value;
    SemanticJsonBytes(platform.numerals,
      Identity(platform, key.path, CountOf(keys[..i], key), key.semanticSha256)).value
  }

  lemma {:induction false} LaterCountsMore(keys: seq<Option<SiteKey>>, i: nat, j: nat, key: SiteKey)
    requires i < j <= |keys| && keys[i] == Some(key)
    ensures CountOf(keys[..i], key) < CountOf(keys[..j], key)
    decreases j
  {
    assert keys[..j][..j - 1] == keys[..j - 1];
    if i < j - 1 { LaterCountsMore(keys, i, j - 1, key); }
  }

  lemma {:induction false} SameIdentityMeansSameParts(platform: Platform, a: SiteKey, n: nat, b: SiteKey, m: nat)
    requires Proper(platform) && n <= MAX_SAFE_INTEGER && m <= MAX_SAFE_INTEGER
    requires var v, w :=
             Identity(platform, a.path, n, a.semanticSha256), Identity(platform, b.path, m, b.semanticSha256);
             Encodable(v) && Encodable(w)
               && SemanticJsonBytes(platform.numerals, v) == SemanticJsonBytes(platform.numerals, w)
    ensures a == b && n == m
  {
    var v, w := Identity(platform, a.path, n, a.semanticSha256), Identity(platform, b.path, m, b.semanticSha256);
    IdentityHasUniqueNames(platform, a, n);
    IdentityHasUniqueNames(platform, b, m);
    BytesAreCanonical(platform.numerals, v, w);
    SameIdentityParts(platform, a, n, b, m);
  }

  lemma {:induction false} IdentityHasUniqueNames(platform: Platform, a: SiteKey, n: nat)
    ensures UniqueNames(Identity(platform, a.path, n, a.semanticSha256))
  {
  }

  lemma {:induction false} SameIdentityParts(platform: Platform, a: SiteKey, n: nat, b: SiteKey, m: nat)
    requires SameJson(Identity(platform, a.path, n, a.semanticSha256), Identity(platform, b.path, m, b.semanticSha256))
    ensures a == b && platform.number(n) == platform.number(m)
  {
    var v, w := Identity(platform, a.path, n, a.semanticSha256), Identity(platform, b.path, m, b.semanticSha256);
    assert SameJson(v.items[2], w.items[2]) && SameJson(v.items[3], w.items[3]) && SameJson(v.items[4], w.items[4]);
  }

  /** No two sites of a list are digested over the same bytes. */
  lemma {:induction false} IdentitiesAreDistinct(platform: Platform, keys: seq<Option<SiteKey>>, i: nat, j: nat)
    requires Proper(platform) && i < j < |keys| && IdAt(platform, keys, i).Some? && IdAt(platform, keys, j).Some?
    ensures IdentityBytes(platform, keys, i) != IdentityBytes(platform, keys, j)
  {
    var a, b := keys[i].value, keys[j].value;
    var n, m := CountOf(keys[..i], a), CountOf(keys[..j], b);
    if IdentityBytes(platform, keys, i) == IdentityBytes(platform, keys, j) {
      SameIdentityMeansSameParts(platform, a, n, b, m);
      LaterCountsMore(keys, i, j, a);
    }
  }

  /** So the ids of two sites are equal only when the digest collides. */
  lemma {:induction false} IdsAreDistinctWithoutCollision(platform: Platform, keys: seq<Option<SiteKey>>, i: nat,
      j: nat)
    requires Proper(platform) && i < j < |keys| && IdAt(platform, keys, i).Some? && IdAt(platform, keys, j).Some?
    ensures IdAt(platform, keys, i) == IdAt(platform, keys, j) <==>
            platform.digest(IdentityBytes(platform, keys, i)) == platform.digest(IdentityBytes(platform, keys, j))
    ensures IdentityBytes(platform, keys, i) != IdentityBytes(platform, keys, j)
  {
    IdentitiesAreDistinct(platform, keys, i, j);
    IdIsPrefixedDigest(platform, keys, i);
    IdIsPrefixedDigest(platform, keys, j);
    var x, y := platform.digest(IdentityBytes(platform, keys, i)), platform.digest(IdentityBytes(platform, keys, j));
    assert (ID_PREFIX + x)[3..] == x && (ID_PREFIX + y)[3..] == y;
  }

  lemma {:induction false} IdIsPrefixedDigest(platform: Platform, keys: seq<Option<SiteKey>>, i: nat)
    requires i < |keys| && IdAt(platform, keys, i).Some?
    ensures IdAt(platform, keys, i).value == ID_PREFIX + platform.digest(IdentityBytes(platform, keys, i))
  {
  }

  /** Without a collision, sites share a key exactly when they share the path and their meaning. */
  lemma {:induction false} KeysMeanSamePathAndMeaning(platform: Platform, a: PreparedSite, b: PreparedSite)
    requires Proper(platform) && Encodable(a.projection) && Encodable(b.projection) && UniqueNames(a.projection)
    requires UniqueNames(b.projection)
    requires var x, y :=
             SemanticJsonBytes(platform.numerals, a.projection).value,
             SemanticJsonBytes(platform.numerals, b.projection).value;
             platform.digest(x) == platform.digest(y) ==> x == y
    ensures KeyOf(platform, a) == KeyOf(platform, b) <==> a.path == b.path && SameJson(a.projection, b.projection)
  {
    BytesAreCanonical(platform.numerals, a.projection, b.projection);
  }

  // ----- ids are stable

  /** For each of the first n entries that is the key, how many entries before it are. */
  function Ordinals(keys: seq<Option<SiteKey>>, key: SiteKey, n: nat): seq<nat>
    requires n <= |keys|
  {
    if n == 0 then []
    else Ordinals(keys, key, n - 1) + if keys[n - 1] == Some(key) then [CountOf(keys[..n - 1], key)] else []
  }

  function UpTo(n: nat): (r: seq<nat>)
    ensures |r| == n && forall i :: 0 <= i < n ==> r[i] == i
  {
    if n == 0 then [] else UpTo(n - 1) + [n - 1]
  }

  lemma {:induction false} CountOfOneMore(keys: seq<Option<SiteKey>>, key: SiteKey, n: nat)
    requires 0 < n <= |keys|
    ensures CountOf(keys[..n], key) == CountOf(keys[..n - 1], key) + if keys[n - 1] == Some(key) then 1 else 0
  {
    assert keys[..n][..n - 1] == keys[..n - 1] && keys[..n][n - 1] == keys[n - 1];
  }

  /** The sites of a key are numbered without gaps, whatever lies between them. */
  lemma {:induction false} OrdinalsCountUp(keys: seq<Option<SiteKey>>, key: SiteKey, n: nat)
    requires n <= |keys|
    ensures Ordinals(keys, key, n) == UpTo(CountOf(keys[..n], key))
  {
    if n > 0 {
      OrdinalsCountUp(keys, key, n - 1);
      CountOfOneMore(keys, key, n);
    }
  }

  /** The ids of the sites with the key, in order. */
  function IdsOf(platform: Platform, keys: seq<Option<SiteKey>>, key: SiteKey): seq<Option<JsString>> {
    var ordinals := Ordinals(keys, key, |keys|);
    seq(|ordinals|, i requires 0 <= i < |ordinals| => IdFor(platform, key, ordinals[i]))
  }

  /** Every site with the key has the id at its own place in that list. */
  lemma {:induction false} SiteIdIsListed(platform: Platform, keys: seq<Option<SiteKey>>, key: SiteKey, i: nat)
    requires i < |keys| && keys[i] == Some(key)
    ensures var ordinal := CountOf(keys[..i], key);
            ordinal < |IdsOf(platform, keys, key)| && IdsOf(platform, keys, key)[ordinal] == IdAt(platform, keys, i)
  {
    LaterCountsMore(keys, i, |keys|, key);
    OrdinalsCountUp(keys, key, |keys|);
  }

  /**
   * Two lists with equally many sites of a key give that key's sites the same ids in the same order:
   * inserting, deleting or moving sites with other keys changes none of them. Adding sites of the
   * key itself keeps the ids given before.
   */
  lemma {:induction false} IdsAreStable(platform: Platform, a: seq<Option<SiteKey>>, b: seq<Option<SiteKey>>,
      key: SiteKey)
    ensures CountOf(a, key) == CountOf(b, key) ==> IdsOf(platform, a, key) == IdsOf(platform, b, key)
    ensures CountOf(a, key) <= CountOf(b, key) ==> IdsOf(platform, a, key) <= IdsOf(platform, b, key)
  {
    OrdinalsCountUp(a, key, |a|);
    OrdinalsCountUp(b, key, |b|);
    assert a[..|a|] == a && b[..|b|] == b;
  }

  // ----- what paths and ids spell out

  /** A stretch of the path from one slash or end to the next. */
  ghost predicate IsSegment(path: JsString, i: nat, j: nat) {
    && i <= j <= |path| && (i == 0 || path[i - 1] == 47) && (j == |path| || path[j] == 47)
    && forall k :: i <= k < j ==> path[k] != 47
  }

  ghost predicate HasSegment(path: JsString, segment: JsString) {
    exists i: nat, j: nat :: IsSegment(path, i, j) && path[i..j] == segment
  }

  /** The first stretch of a path ends at its first slash, the others are those of what follows it. */
  lemma {:induction false} SegmentsAre(path: JsString)
    ensures IsSegment(path, 0, |Segments(path)[0]|) && path[..|Segments(path)[0]|] == Segments(path)[0]
    ensures forall segment :: segment in Segments(path)[1..] <==> HasLaterSegment(path, segment)
  {
    if path != [] {
      var rest := path[1..];
      SegmentsAre(rest);
      var n := |Segments(rest)[0]|;
      if path[0] == 47 {
        assert Segments(path) == [[]] + Segments(rest);
        assert Segments(rest) == [Segments(rest)[0]] + Segments(rest)[1..];
        forall segment
          ensures segment in Segments(path)[1..] <==> HasLaterSegment(path, segment)
        {
          AfterSlash(path, segment, n);
        }
      } else {
        assert path[..n + 1] == [path[0]] + rest[..n];
        assert forall k :: 1 <= k < n + 1 ==> path[k] == rest[k - 1];
        forall segment
          ensures HasLaterSegment(rest, segment) <==> HasLaterSegment(path, segment)
        {
          LaterShift(path, segment);
        }
      }
    }
  }

  ghost predicate LaterAt(path: JsString, segment: JsString, i: nat, j: nat) {
    i > 0 && IsSegment(path, i, j) && path[i..j] == segment
  }

  ghost predicate HasLaterSegment(path: JsString, segment: JsString) {
    exists i: nat, j: nat :: LaterAt(path, segment, i, j)
  }

  lemma {:induction false} ShiftedSegment(path: JsString, i: nat, j: nat)
    requires path != [] && 0 < i <= j <= |path| && (i > 1 || path[0] == 47)
    ensures IsSegment(path, i, j) <==> IsSegment(path[1..], i - 1, j - 1)
    ensures path[i..j] == path[1..][i - 1..j - 1]
  {
    assert forall k :: 1 <= k < |path| ==> path[k] == path[1..][k - 1];
  }

  lemma {:induction false} LaterShift(path: JsString, segment: JsString)
    requires path != [] && path[0] != 47
    ensures HasLaterSegment(path[1..], segment) <==> HasLaterSegment(path, segment)
  {
    if i: nat, j: nat :| LaterAt(path[1..], segment, i, j) {
      ShiftedSegment(path, i + 1, j + 1);
      assert LaterAt(path, segment, i + 1, j + 1);
    }
    if i: nat, j: nat :| LaterAt(path, segment, i, j) {
      ShiftedSegment(path, i, j);
      assert LaterAt(path[1..], segment, i - 1, j - 1);
    }
  }

  lemma {:induction false} AfterSlash(path: JsString, segment: JsString, n: nat)
    requires path != [] && path[0] == 47
    requires IsSegment(path[1..], 0, n) && path[1..][..n] == Segments(path[1..])[0]
    requires segment in Segments(path[1..])[1..] <==> HasLaterSegment(path[1..], segment)
    ensures segment in Segments(path)[1..] <==> HasLaterSegment(path, segment)
  {
    var rest := path[1..];
    assert Segments(path)[1..] == Segments(rest);
    assert Segments(rest) == [Segments(rest)[0]] + Segments(rest)[1..];
    SegmentBeforeSlash(path, segment, n);
    if i: nat, j: nat :| LaterAt(path, segment, i, j) {
      LaterAfterSlash(path, segment, n, i, j);
    }
  }

  lemma {:induction false} SegmentBeforeSlash(path: JsString, segment: JsString, n: nat)
    requires path != [] && path[0] == 47 && IsSegment(path[1..], 0, n)
    ensures segment == path[1..][..n] || HasLaterSegment(path[1..], segment) ==> HasLaterSegment(path, segment)
  {
    if segment == path[1..][..n] {
      ShiftedSegment(path, 1, n + 1);
      assert LaterAt(path, segment, 1, n + 1);
    } else if i: nat, j: nat :| LaterAt(path[1..], segment, i, j) {
      ShiftedSegment(path, i + 1, j + 1);
      assert LaterAt(path, segment, i + 1, j + 1);
    }
  }

  lemma {:induction false} LaterAfterSlash(path: JsString, segment: JsString, n: nat, i: nat, j: nat)
    requires path != [] && path[0] == 47 && LaterAt(path, segment, i, j) && IsSegment(path[1..], 0, n)
    ensures segment == path[1..][..n] || HasLaterSegment(path[1..], segment)
  {
    ShiftedSegment(path, i, j);
    if i > 1 {
      assert LaterAt(path[1..], segment, i - 1, j - 1);
    } else {
      SegmentEnds(path[1..], n, j - 1);
    }
  }

  lemma {:induction false} SegmentEnds(path: JsString, n: nat, m: nat)
    requires IsSegment(path, 0, n) && IsSegment(path, 0, m)
    ensures n == m
  {
  }

  /** The segments of a path are exactly its stretches between slashes. */
  lemma {:induction false} SegmentsAreStretches(path: JsString, segment: JsString)
    ensures segment in Segments(path) <==> HasSegment(path, segment)
  {
    SegmentsAre(path);
    var first := Segments(path)[0];
    assert Segments(path) == [first] + Segments(path)[1..];
    if i: nat, j: nat :| IsSegment(path, i, j) && path[i..j] == segment {
      if i == 0 {
        SegmentEnds(path, |first|, j);
      } else {
        assert LaterAt(path, segment, i, j);
      }
    }
    if segment == first {
      assert IsSegment(path, 0, |first|) && path[0..|first|] == first;
    }
  }

  /**
   * A path is normalized exactly when it is relative, uses forward slashes, and no stretch between them
   * is empty, `.` or `..`.
   */
  lemma {:induction false} NormalizedMeans(path: JsString)
    ensures IsNormalizedPath(path) <==>
            && LooselyFormed(path) && path != [] && 92 !in path && path[0] != 47
            && !(|path| >= 3 && (65 <= path[0] <= 90 || 97 <= path[0] <= 122) && path[1] == 58 && path[2] == 47)
            && !HasSegment(path, []) && !HasSegment(path, [46]) && !HasSegment(path, [46, 46])
  {
    SegmentsAreStretches(path, []);
    SegmentsAreStretches(path, [46]);
    SegmentsAreStretches(path, [46, 46]);
  }

  /** What is digested for an id: a marker, the version, path, ordinal and semantic digest, in this order. */
  lemma {:induction false} IdentityIs(platform: Platform, path: JsString, ordinal: nat, semanticSha256: JsString)
    ensures var items := Identity(platform, path, ordinal, semanticSha256).items;
            && |items| == 5
            && items[0] == JString(Text("semantscript-function-id")) && items[1] == JNumber(ONE)
               && items[2] == JString(path)
            && items[3] == JNumber(platform.number(ordinal)) && items[4] == JString(semanticSha256)
  {
  }

  lemma {:induction false} IdentityIsEncodable(platform: Platform, path: JsString, ordinal: nat,
      semanticSha256: JsString)
    requires Proper(platform) && WellFormed(path) && ordinal <= MAX_SAFE_INTEGER && IsDigestText(semanticSha256)
    ensures Encodable(Identity(platform, path, ordinal, semanticSha256))
  {
    DigestTextIsWellFormed(semanticSha256);
    MarkerIsWellFormed();
    KindsOfNumbers(ONE);
    FiveEncodable(JString(Text("semantscript-function-id")), JNumber(ONE), JString(path),
      JNumber(platform.number(ordinal)), JString(semanticSha256));
  }

  lemma {:induction false} FiveEncodable(a: Json, b: Json, c: Json, d: Json, e: Json)
    requires Encodable(a) && Encodable(b) && Encodable(c) && Encodable(d) && Encodable(e)
    ensures Encodable(JArray([a, b, c, d, e]))
  {
  }

  /**
   * An id is `nf_` and the digest of the encoded identity; a path that is not normalized and a wrong
   * digest get none.
   */
  lemma {:induction false} IdIs(platform: Platform, path: JsString, ordinal: nat, semanticSha256: JsString)
    requires Proper(platform) && WellFormed(path)
    ensures var id := CreateFunctionId(platform, path, ordinal, semanticSha256);
            var bytes := SemanticJsonBytes(platform.numerals, Identity(platform, path, ordinal, semanticSha256));
            if IsNormalizedPath(path) && ordinal <= MAX_SAFE_INTEGER && IsDigestText(semanticSha256)
            then bytes.Some? && id == Some(Text("nf_") + platform.digest(bytes.value)) else id.None?
  {
    PrefixIs();
    if ordinal <= MAX_SAFE_INTEGER && IsDigestText(semanticSha256) {
      IdentityIsEncodable(platform, path, ordinal, semanticSha256);
    }
  }

  /** Digest texts are 64 digits of this list. */
  lemma {:induction false} DigestTextsAre(text: JsString)
    ensures IsDigestText(text) <==> |text| == 64 && forall i :: 0 <= i < |text| ==> text[i] in Text("0123456789abcdef")
  {
    HexDigitsAre();
  }

  lemma {:induction false} HexDigitsAre()
    ensures forall u: CodeUnit :: 48 <= u <= 57 || 97 <= u <= 102 <==> u in Text("0123456789abcdef")
  {
    var digits := Text("0123456789abcdef");
    assert forall i :: 0 <= i < 10 ==> digits[i] == 48 + i;
    assert forall i :: 10 <= i < 16 ==> digits[i] == 87 + i;
    forall u: CodeUnit | 48 <= u <= 57 || 97 <= u <= 102
      ensures u in digits
    {
      assert digits[if u <= 57 then u - 48 else u - 87] == u;
    }
  }

  /** The ids that are assigned are ones the bundle check takes for function ids. */
  lemma {:induction false} IdsAreFunctionIds(platform: Platform, path: JsString, ordinal: nat, semanticSha256: JsString)
    requires Proper(platform) && CreateFunctionId(platform, path, ordinal, semanticSha256).Some?
    ensures BundleIr.IsFunctionId(Utf8(CreateFunctionId(platform, path, ordinal, semanticSha256).value))
  {
    var bytes := SemanticJsonBytes(platform.numerals, Identity(platform, path, ordinal, semanticSha256)).value;
    assert IsDigestText(platform.digest(bytes));
    AsciiIsItself(ID_PREFIX + platform.digest(bytes));
  }

  lemma {:induction false} PrefixIs()
    ensures ID_PREFIX == Text("nf_")
  {
  }

  lemma {:induction false} DigestTextIsWellFormed(text: JsString)
    requires forall i :: 0 <= i < |text| ==> !IsHigh(text[i]) && !IsLow(text[i])
    ensures WellFormed(text)
  {
    WellFormedMeans(text);
  }

  lemma {:induction false} MarkerIsWellFormed()
    ensures WellFormed(Text("semantscript-function-id"))
  {
    DigestTextIsWellFormed(Text("semantscript-function-id"));
  }
}
