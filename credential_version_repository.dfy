/**
  Read-only queries over the table of credential versions, used by key
  rotation: the latest active and transitional certificate versions, counts
  of versions by encryption key, and a credential's newest-first history.

  The table is a sequence in insertion order. When two versions share a
  creation time, the one inserted later counts as the newer: it comes first
  in a newest-first history and is the one a "latest" query returns.
*/
module CredentialVersionRepository {
  import opened SharedTypes

  /**
    One stored version. `certificateTransitional` is the `transitional`
    column of the joined certificate row: None for a version that has no
    certificate row (the left join gives NULL).
  */
  datatype CredentialVersionData = CredentialVersionData(
    uuid: Uuid,
    credentialUuid: Uuid,
    credentialType: string,
    certificateTransitional: Option<bool>,
    versionCreatedAt: int,
    encryptionKeyUuid: Uuid)

  type Selector = CredentialVersionData -> bool

  /** The versions satisfying `p`, in table order. */
  function Filter(vs: seq<CredentialVersionData>, p: Selector): (r: seq<CredentialVersionData>)
    ensures |r| <= |vs|
    ensures forall v :: v in r <==> v in vs && p(v)
  {
    if vs == [] then []
    else
      var prefix := vs[..|vs| - 1];
      var last := vs[|vs| - 1];
      assert vs == prefix + [last];
      if p(last) then Filter(prefix, p) + [last] else Filter(prefix, p)
  }

  /** The selection keeps every accepted version as often as the table holds it, and no other. */
  lemma {:induction false} FilterKeepsMultiplicity(vs: seq<CredentialVersionData>, p: Selector)
    ensures forall v :: multiset(Filter(vs, p))[v] == if p(v) then multiset(vs)[v] else 0
  {
    if vs != [] {
      var prefix := vs[..|vs| - 1];
      var last := vs[|vs| - 1];
      assert vs == prefix + [last];
      FilterKeepsMultiplicity(prefix, p);
    }
  }

  predicate IsNewestFirst(h: seq<CredentialVersionData>) {
    forall i, j :: 0 <= i < j < |h| ==> h[i].versionCreatedAt >= h[j].versionCreatedAt
  }

  /**
    Inserts a version, inserted after every version of `h`, into the
    newest-first list `h`: ahead of every version that is not strictly newer.
  */
  function InsertNewestFirst(v: CredentialVersionData, h: seq<CredentialVersionData>): (r: seq<CredentialVersionData>)
    ensures |r| == |h| + 1
    ensures multiset(r) == multiset(h) + multiset{v}
    ensures r[0] == v || (h != [] && r[0] == h[0])
  {
    if h == [] || h[0].versionCreatedAt <= v.versionCreatedAt then [v] + h
    else
      assert h == [h[0]] + h[1..];
      [h[0]] + InsertNewestFirst(v, h[1..])
  }

  lemma {:induction false} InsertKeepsNewestFirst(v: CredentialVersionData, h: seq<CredentialVersionData>)
    requires IsNewestFirst(h)
    ensures IsNewestFirst(InsertNewestFirst(v, h))
  {
    if h != [] && h[0].versionCreatedAt > v.versionCreatedAt {
      var rest := InsertNewestFirst(v, h[1..]);
      InsertKeepsNewestFirst(v, h[1..]);
      assert forall j :: 0 <= j < |rest| ==> rest[j].versionCreatedAt <= rest[0].versionCreatedAt <= h[0].versionCreatedAt;
    }
  }

  /** `ORDER BY version_created_at DESC` with the tie-break above: an insertion sort in table order. */
  function NewestFirst(vs: seq<CredentialVersionData>): (h: seq<CredentialVersionData>)
    ensures multiset(h) == multiset(vs)
    ensures IsNewestFirst(h)
  {
    if vs == [] then []
    else
      var prefix := vs[..|vs| - 1];
      assert vs == prefix + [vs[|vs| - 1]];
      InsertKeepsNewestFirst(vs[|vs| - 1], NewestFirst(prefix));
      InsertNewestFirst(vs[|vs| - 1], NewestFirst(prefix))
  }

  /** `LIMIT 1` / "find first": the head of a list, if any. */
  function First(h: seq<CredentialVersionData>): Option<CredentialVersionData> {
    if h == [] then None else Some(h[0])
  }

  /** Position `i` holds the latest version of `vs`: none is newer, and none inserted after it is as new. */
  ghost predicate IsLatestAt(vs: seq<CredentialVersionData>, i: int) {
    && 0 <= i < |vs|
    && (forall j :: 0 <= j < |vs| ==> vs[j].versionCreatedAt <= vs[i].versionCreatedAt)
    && (forall j :: i < j < |vs| ==> vs[j].versionCreatedAt < vs[i].versionCreatedAt)
  }

  /** Position of the latest version of a non-empty list, by a direct scan in table order. */
  function LatestIndex(vs: seq<CredentialVersionData>): (i: nat)
    requires vs != []
    ensures IsLatestAt(vs, i)
  {
    if |vs| == 1 then 0
    else
      var prefix := vs[..|vs| - 1];
      var last := |vs| - 1;
      var best := LatestIndex(prefix);
      assert forall j :: 0 <= j < last ==> vs[j] == prefix[j];
      if vs[best].versionCreatedAt <= vs[last].versionCreatedAt then last else best
  }

  /** The latest version of a list: the reference definition of "latest". */
  function LatestOf(vs: seq<CredentialVersionData>): Option<CredentialVersionData> {
    if vs == [] then None else Some(vs[LatestIndex(vs)])
  }

  /** The head of the newest-first order is the latest version. */
  lemma {:induction false} FirstOfNewestFirstIsLatest(vs: seq<CredentialVersionData>)
    ensures First(NewestFirst(vs)) == LatestOf(vs)
  {
    if |vs| > 1 {
      var prefix := vs[..|vs| - 1];
      FirstOfNewestFirstIsLatest(prefix);
      assert vs[LatestIndex(prefix)] == prefix[LatestIndex(prefix)];
    }
  }

  /** Nothing is newer than the latest version of a list. */
  lemma LatestIsNewest(vs: seq<CredentialVersionData>, w: CredentialVersionData)
    requires w in vs
    ensures LatestOf(vs).Some?
    ensures w.versionCreatedAt <= LatestOf(vs).value.versionCreatedAt
    ensures LatestOf(vs).value in vs
  {
    var j :| 0 <= j < |vs| && vs[j] == w;
    assert IsLatestAt(vs, LatestIndex(vs));
  }

  /** The head of the newest-first order belongs to the list and nothing in the list is newer. */
  lemma FirstOfNewestFirstIsNewest(vs: seq<CredentialVersionData>)
    ensures First(NewestFirst(vs)).None? <==> vs == []
    ensures First(NewestFirst(vs)).Some? ==> First(NewestFirst(vs)).value in vs
    ensures First(NewestFirst(vs)).Some? ==>
              forall v :: v in vs ==> v.versionCreatedAt <= First(NewestFirst(vs)).value.versionCreatedAt
  {
    FirstOfNewestFirstIsLatest(vs);
    forall v | v in vs
      ensures v.versionCreatedAt <= LatestOf(vs).value.versionCreatedAt
    {
      LatestIsNewest(vs, v);
    }
    if vs != [] {
      LatestIsNewest(vs, vs[0]);
    }
  }

  // ----- Selectors of the queries -----

  /** `credential_uuid = cid and certificate_credential.transitional = t`: false for a NULL joined column. */
  function CertificateOf(cid: Uuid, transitional: bool): Selector {
    (v: CredentialVersionData) => v.credentialUuid == cid && v.certificateTransitional == Some(transitional)
  }

  function OfCredential(cid: Uuid): Selector {
    (v: CredentialVersionData) => v.credentialUuid == cid
  }

  function OfCredentialAndType(cid: Uuid, credentialType: string): Selector {
    (v: CredentialVersionData) => v.credentialUuid == cid && v.credentialType == credentialType
  }

  function KeyIsNot(key: Uuid): Selector {
    (v: CredentialVersionData) => v.encryptionKeyUuid != key
  }

  function KeyIsIn(keys: seq<Uuid>): Selector {
    (v: CredentialVersionData) => v.encryptionKeyUuid in keys
  }

  // ----- The queries -----

  /** `findOneByUuid`: the version with that identifier, if any. */
  function FindOneByUuid(vs: seq<CredentialVersionData>, uuid: Uuid): (r: Option<CredentialVersionData>)
    ensures r.Some? ==> r.value in vs && r.value.uuid == uuid
    ensures r.None? <==> forall v :: v in vs ==> v.uuid != uuid
  {
    First(Filter(vs, (v: CredentialVersionData) => v.uuid == uuid))
  }

  /**
    `findLatestNonTransitionalCertificateVersion`: among the credential's
    versions with a certificate row marked not transitional, the newest.
  */
  function FindLatestNonTransitionalCertificateVersion(vs: seq<CredentialVersionData>, cid: Uuid): (r: Option<CredentialVersionData>)
    ensures r.None? <==> forall v :: v in vs ==> !(v.credentialUuid == cid && v.certificateTransitional == Some(false))
    ensures r.Some? ==> r.value in vs && r.value.credentialUuid == cid && r.value.certificateTransitional == Some(false)
    ensures r.Some? ==> forall v :: v in vs && v.credentialUuid == cid && v.certificateTransitional == Some(false) ==>
              v.versionCreatedAt <= r.value.versionCreatedAt
    ensures r == LatestOf(Filter(vs, CertificateOf(cid, false)))
  {
    var candidates := Filter(vs, CertificateOf(cid, false));
    FirstOfNewestFirstIsNewest(candidates);
    FirstOfNewestFirstIsLatest(candidates);
    First(NewestFirst(candidates))
  }

  /** `findTransitionalCertificateVersion`: the same over versions marked transitional. */
  function FindTransitionalCertificateVersion(vs: seq<CredentialVersionData>, cid: Uuid): (r: Option<CredentialVersionData>)
    ensures r.None? <==> forall v :: v in vs ==> !(v.credentialUuid == cid && v.certificateTransitional == Some(true))
    ensures r.Some? ==> r.value in vs && r.value.credentialUuid == cid && r.value.certificateTransitional == Some(true)
    ensures r.Some? ==> forall v :: v in vs && v.credentialUuid == cid && v.certificateTransitional == Some(true) ==>
              v.versionCreatedAt <= r.value.versionCreatedAt
    ensures r == LatestOf(Filter(vs, CertificateOf(cid, true)))
  {
    var candidates := Filter(vs, CertificateOf(cid, true));
    FirstOfNewestFirstIsNewest(candidates);
    FirstOfNewestFirstIsLatest(candidates);
    First(NewestFirst(candidates))
  }

  /** `countByEncryptedCredentialValueEncryptionKeyUuidNot`: versions not under the key. */
  function CountByEncryptionKeyUuidNot(vs: seq<CredentialVersionData>, key: Uuid): (n: nat)
    ensures n <= |vs|
    ensures n == 0 <==> forall v :: v in vs ==> v.encryptionKeyUuid == key
  {
    var selected := Filter(vs, KeyIsNot(key));
    assert selected != [] ==> selected[0] in selected;
    |selected|
  }

  /** `countByEncryptedCredentialValueEncryptionKeyUuidIn`: versions under any of the keys. */
  function CountByEncryptionKeyUuidIn(vs: seq<CredentialVersionData>, keys: seq<Uuid>): (n: nat)
    ensures n <= |vs|
    ensures n == 0 <==> forall v :: v in vs ==> v.encryptionKeyUuid !in keys
  {
    var selected := Filter(vs, KeyIsIn(keys));
    assert selected != [] ==> selected[0] in selected;
    |selected|
  }

  /** `findByEncryptedCredentialValueEncryptionKeyUuidIn`, without the paging: versions under any of the keys. */
  function FindByEncryptionKeyUuidIn(vs: seq<CredentialVersionData>, keys: seq<Uuid>): (r: seq<CredentialVersionData>)
    ensures forall v :: v in r <==> v in vs && v.encryptionKeyUuid in keys
    ensures |r| == CountByEncryptionKeyUuidIn(vs, keys)
  {
    Filter(vs, KeyIsIn(keys))
  }

  /** `findAllByCredentialUuidOrderByVersionCreatedAtDesc`: the credential's history, newest first. */
  function FindAllByCredentialUuidOrderByVersionCreatedAtDesc(vs: seq<CredentialVersionData>, cid: Uuid): (h: seq<CredentialVersionData>)
    ensures IsNewestFirst(h)
    ensures multiset(h) == multiset(Filter(vs, OfCredential(cid)))
    ensures forall v :: v in h <==> v in vs && v.credentialUuid == cid
  {
    var h := NewestFirst(Filter(vs, OfCredential(cid)));
    assert forall v :: v in h <==> v in multiset(h) <==> v in multiset(Filter(vs, OfCredential(cid))) <==> v in Filter(vs, OfCredential(cid));
    h
  }

  /** `findAllByCredentialUuidAndTypeOrderByVersionCreatedAtDesc`: the same, keeping one credential type. */
  function FindAllByCredentialUuidAndTypeOrderByVersionCreatedAtDesc(vs: seq<CredentialVersionData>, cid: Uuid, credentialType: string)
    : (h: seq<CredentialVersionData>)
    ensures IsNewestFirst(h)
    ensures multiset(h) == multiset(Filter(vs, OfCredentialAndType(cid, credentialType)))
    ensures forall v :: v in h <==> v in vs && v.credentialUuid == cid && v.credentialType == credentialType
  {
    var h := NewestFirst(Filter(vs, OfCredentialAndType(cid, credentialType)));
    assert forall v :: v in h <==> v in multiset(h) <==> v in multiset(Filter(vs, OfCredentialAndType(cid, credentialType))) <==> v in Filter(vs, OfCredentialAndType(cid, credentialType));
    h
  }

  /** `findFirstByCredentialUuidOrderByVersionCreatedAtDesc`: the head of the newest-first history. */
  function FindFirstByCredentialUuidOrderByVersionCreatedAtDesc(vs: seq<CredentialVersionData>, cid: Uuid): (r: Option<CredentialVersionData>)
    ensures r == First(FindAllByCredentialUuidOrderByVersionCreatedAtDesc(vs, cid))
    ensures r == LatestOf(Filter(vs, OfCredential(cid)))
    ensures r.None? <==> forall v :: v in vs ==> v.credentialUuid != cid
  {
    FirstOfNewestFirstIsLatest(Filter(vs, OfCredential(cid)));
    First(NewestFirst(Filter(vs, OfCredential(cid))))
  }

  // ----- Properties -----

  /** Appending a version the selector rejects leaves the selection unchanged. */
  lemma FilterAppendRejected(vs: seq<CredentialVersionData>, v: CredentialVersionData, p: Selector)
    requires !p(v)
    ensures Filter(vs + [v], p) == Filter(vs, p)
  {
    assert (vs + [v])[..|vs|] == vs;
  }

  /** Appending a version the selector accepts adds it at the end of the selection. */
  lemma FilterAppendAccepted(vs: seq<CredentialVersionData>, v: CredentialVersionData, p: Selector)
    requires p(v)
    ensures Filter(vs + [v], p) == Filter(vs, p) + [v]
  {
    assert (vs + [v])[..|vs|] == vs;
  }

  /** A new version that is not transitional leaves the transitional selection unchanged. */
  lemma NonTransitionalVersionKeepsTransitional(vs: seq<CredentialVersionData>, v: CredentialVersionData, cid: Uuid)
    requires v.certificateTransitional != Some(true)
    ensures FindTransitionalCertificateVersion(vs + [v], cid) == FindTransitionalCertificateVersion(vs, cid)
  {
    FilterAppendRejected(vs, v, CertificateOf(cid, true));
  }

  /** A new version that is transitional leaves the non-transitional selection unchanged. */
  lemma TransitionalVersionKeepsNonTransitional(vs: seq<CredentialVersionData>, v: CredentialVersionData, cid: Uuid)
    requires v.certificateTransitional != Some(false)
    ensures FindLatestNonTransitionalCertificateVersion(vs + [v], cid) == FindLatestNonTransitionalCertificateVersion(vs, cid)
  {
    FilterAppendRejected(vs, v, CertificateOf(cid, false));
  }

  /**
    A new non-transitional certificate version of the credential, at least as
    new as each earlier one, becomes the selection; other versions do not matter.
  */
  lemma NewestNonTransitionalVersionIsSelected(vs: seq<CredentialVersionData>, v: CredentialVersionData, cid: Uuid)
    requires v.credentialUuid == cid && v.certificateTransitional == Some(false)
    requires forall w :: w in vs && w.credentialUuid == cid && w.certificateTransitional == Some(false) ==>
               w.versionCreatedAt <= v.versionCreatedAt
    ensures FindLatestNonTransitionalCertificateVersion(vs + [v], cid) == Some(v)
  {
    var p := CertificateOf(cid, false);
    var candidates := Filter(vs, p);
    FilterAppendAccepted(vs, v, p);
    var after := candidates + [v];
    assert after[..|candidates|] == candidates;
    if candidates != [] {
      var best := LatestIndex(candidates);
      assert after[best] == candidates[best];
      assert candidates[best] in candidates;
    }
    assert LatestIndex(after) == |candidates|;
  }

  /** Versions not under a key and versions under it account for the whole table. */
  lemma {:induction false} FilterSplits(vs: seq<CredentialVersionData>, p: Selector, q: Selector)
    requires forall v :: q(v) == !p(v)
    ensures |Filter(vs, p)| + |Filter(vs, q)| == |vs|
  {
    if vs != [] {
      FilterSplits(vs[..|vs| - 1], p, q);
    }
  }

  /** For one key K, the `In([K])` count and the `Not(K)` count sum to the number of versions. */
  lemma KeyCountsPartition(vs: seq<CredentialVersionData>, key: Uuid)
    ensures CountByEncryptionKeyUuidIn(vs, [key]) + CountByEncryptionKeyUuidNot(vs, key) == |vs|
  {
    FilterSplits(vs, KeyIsIn([key]), KeyIsNot(key));
  }

  /** The `In` count is zero exactly when no version is under any of the keys: then the keys may be retired. */
  lemma KeysUnusedIffCountZero(vs: seq<CredentialVersionData>, keys: seq<Uuid>)
    ensures CountByEncryptionKeyUuidIn(vs, keys) == 0 <==> forall v :: v in vs ==> v.encryptionKeyUuid !in keys
  {
    var r := Filter(vs, KeyIsIn(keys));
    if |r| != 0 {
      assert r[0] in r;
    }
  }

  /** Counting under more keys never counts fewer versions. */
  lemma {:induction false} CountInIsMonotone(vs: seq<CredentialVersionData>, keys: seq<Uuid>, more: seq<Uuid>)
    requires forall k :: k in keys ==> k in more
    ensures CountByEncryptionKeyUuidIn(vs, keys) <= CountByEncryptionKeyUuidIn(vs, more)
  {
    if vs != [] {
      CountInIsMonotone(vs[..|vs| - 1], keys, more);
    }
  }
}
