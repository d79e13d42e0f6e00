# Credential store access control, in Dafny

This project models the authorization core of a credential store. It covers three parts.

- The ACL engine (`AccessControlDataService`). It keeps one permission record per (credential, actor), with five flags: read, write, delete, read-acl and write-acl. It lists a credential's ACL, merges new grants into existing records, deletes one actor's record and answers the five capability checks.
- The ACL request handler (`AccessControlHandler`). It serves get, set and delete-entry requests from an authenticated caller. It reports "not found" in place of "permission denied" on get and delete, but not on set.
- The read-only queries over credential versions (`CredentialVersionRepository`) used by key rotation. They select the latest non-transitional and the latest transitional certificate version, count versions by encryption key, and list a credential's history newest first.

Files:

- `shared_types.dfy` (module `SharedTypes`): `Option` (a lookup that may find nothing) and `Uuid`.
- `access_control.dfy` (module `AccessControl`): operations, flags, rows and views, plus the specification functions for lookup, upsert and delete, with their lemmas.
- `access_control_data_service.dfy` (module `AccessControlData`): the class `AccessControlDataService`. Its table is the field `entries: map<EntryKey, Flags>`. Its methods change that table and have `modifies` clauses.
- `access_control_handler.dfy` (module `AccessControlRequests`): the class `AccessControlHandler` and the `Outcome` type `Ok(value) | EntryNotFound | PermissionDenied`.
- `credential_version_repository.dfy` (module `CredentialVersionRepository`): the version queries, written as functions over the table, a sequence kept in insertion order.

Choices the code leaves open:

- **Snapshot in `saveAccessControlEntries`.** The existing rows are read once, before the loop. A row found in that list is the stored object itself, so repeated requests for an actor that already had a record all add up. An actor with no record gets a new, empty entry for every request that names it, because that list is never refreshed. So a second request for such an actor does not add to the first: it saves a second new entry. The table here is a map with one record per (credential, actor), so the second entry replaces the first (`DuplicateNewActorKeepsLastRequestOnly`). The database would instead hold two rows or reject the second insert; see "Left out". It is natural to expect later requests for the same actor to always add to earlier ones. The code does that only for actors that already had a record.
- **Tie-break on equal creation times.** Of two versions with the same `versionCreatedAt`, the one inserted later counts as newer. It comes first in a newest-first history, and the "latest" queries return it. The SQL leaves this order undefined.
- **Row order of `findAllByCredentialNameUuid`.** The query has no `ORDER BY`. `FindAllByCredentialNameUuid` returns the rows in an arbitrary order, and its contract holds for every order.
- **Name resolution.** `CredentialNameDataService` is the read-only map `names` held by the data service. `find` gives nothing for an unknown name. A lookup with no resolved name matches no record, so the checks deny, the listing is empty and delete does nothing.
- **Listing a record's operations.** `createViewFor` lists a row's operations with `AccessEntryData.generateAccessControlOperations`, which is not part of this model. The model takes it to list the set flags in the same fixed order as `getAllowedOperations`: READ, WRITE, DELETE, READ_ACL, WRITE_ACL (`OperationsOf`).
- **Permission service.** The handler calls the data service's checks directly. The permission service's `verifyAclReadPermission` and `hasAclWritePermission` read the same flags. The caller's `UserContext` is reduced to its actor string.

## Model

| member | source | states |
|---|---|---|
| `AccessControl.EnableOperations` | src/main/java/io/pivotal/security/data/AccessControlDataService.java:123 | The listed operations' flags are switched on. Every other flag keeps its value, and none is cleared. |
| `AccessControl.OperationsOf` | src/main/java/io/pivotal/security/data/AccessControlDataService.java:55-69 | A record's operation list holds exactly the operations whose flag is set. They are in the fixed order READ, WRITE, DELETE, READ_ACL, WRITE_ACL, each once. |
| `AccessControl.CanonicalListingIsUnique` | src/main/java/io/pivotal/security/data/AccessControlDataService.java:55-69 | Two lists in the fixed order that hold the same operations are equal. |
| `AccessControl.ListingOfRecordIsUnique` | src/main/java/io/pivotal/security/data/AccessControlDataService.java:55-69 | Any list of exactly a record's operations, in the fixed order, is that record's listing. |
| `AccessControl.GrantThenListRoundTrip` | src/main/java/io/pivotal/security/data/AccessControlDataService.java:117-135 | Granting a list in the fixed order to a new entry, then listing the entry, gives back that list. |
| `AccessControl.ListThenGrantRoundTrip` | src/main/java/io/pivotal/security/data/AccessControlDataService.java:117-135 | Granting a record's own listing to a new entry rebuilds the record. |
| `AccessControl.EnableOperationsComposes` | src/main/java/io/pivotal/security/data/AccessControlDataService.java:123 | Two grants in a row equal one grant of both lists. The order of grants does not matter, and repeating a grant changes nothing. |
| `AccessControl.NewAccessEntry` | src/main/java/io/pivotal/security/data/AccessControlDataService.java:119-121 | A new entry belongs to the given actor and grants nothing. |
| `AccessControl.CreateViewFor` | src/main/java/io/pivotal/security/data/AccessControlDataService.java:127-136 | A view keeps the row's actor. It lists exactly the row's granted operations, in the fixed order. |
| `AccessControl.FindAccessEntryForActor` | src/main/java/io/pivotal/security/data/AccessControlDataService.java:145-151 | Gives nothing exactly when no row belongs to the actor. Otherwise it gives the position of the first row that does; a row is a value here, so the position stands for the Java object. |
| `AccessControl.Find` | src/main/java/io/pivotal/security/data/AccessControlDataService.java:51 | A name resolves exactly when the name store knows it. |
| `AccessControl.FindByCredentialNameAndActor` | src/main/java/io/pivotal/security/data/AccessControlDataService.java:52 | Finds a record exactly when the name resolved and the table has a record for that credential and the actor. The record found is the stored one. A name that does not resolve matches no record. |
| `AccessControl.AllowedOperations` | src/main/java/io/pivotal/security/data/AccessControlDataService.java:49-73 | Without a record the list is empty. Otherwise it holds exactly the granted operations, in the fixed order. |
| `AccessControl.GrantedNeedsRecord` | src/main/java/io/pivotal/security/data/AccessControlDataService.java:80-113 | A capability is granted only when the name resolves, a record exists for it and the actor, and that record's flag is set. |
| `AccessControl.DeleteByCredentialNameAndActor` | src/main/java/io/pivotal/security/data/AccessControlDataService.java:75-78 | The (credential, actor) record is gone. Every other record is unchanged. An unresolved name changes nothing. |
| `AccessControl.DeleteIsIdempotent` | src/main/java/io/pivotal/security/data/AccessControlDataService.java:75-78 | Deleting twice equals deleting once. Deleting an absent record is a no-op. |
| `AccessControl.UpsertOne` | src/main/java/io/pivotal/security/data/AccessControlDataService.java:115-125 | One upsert stores a record for the requested actor and touches no other record. |
| `AccessControl.Upserted` | src/main/java/io/pivotal/security/data/AccessControlDataService.java:40-46 | The requests applied in order never drop a record. A new record appears only for the credential and only for an actor some request names. |
| `AccessControl.UpsertedLeavesOthers` | src/main/java/io/pivotal/security/data/AccessControlDataService.java:40-46 | A save never changes, adds or removes the record of an actor the request list does not name, or any record of another credential. |
| `AccessControl.UpsertedMergesKnownActor` | src/main/java/io/pivotal/security/data/AccessControlDataService.java:40-46 | An actor with a record when the save starts ends with its old flags plus every operation requested for it, over all its requests. |
| `AccessControl.UpsertedCreatesNewActor` | src/main/java/io/pivotal/security/data/AccessControlDataService.java:115-125 | An actor without a record when the save starts ends with exactly the operations of its last request. |
| `AccessControl.UpsertedNeverClears` | src/main/java/io/pivotal/security/data/AccessControlDataService.java:36-47 | After a save, every record that existed still exists, and every flag that was set is still set. |
| `AccessControl.DuplicateNewActorKeepsLastRequestOnly` | src/main/java/io/pivotal/security/data/AccessControlDataService.java:40-46 | Take an actor with no record and two requests for it in one save, [READ] then [WRITE]. Each request starts from a new entry, so the second does not add to the first. In the map, which holds one record per key, the actor ends with WRITE and without READ. |
| `AccessControlData.AccessControlDataService.constructor` | src/main/java/io/pivotal/security/data/AccessControlDataService.java:24-30 | The service starts from the given name store and access-entry table. |
| `AccessControlData.AccessControlDataService.FindAllByCredentialNameUuid` | src/main/java/io/pivotal/security/data/AccessControlDataService.java:40-41 | Returns one row per actor with a record on the credential and no other row. Each row's flags equal the stored ones. |
| `AccessControlData.AccessControlDataService.GetAccessControlList` | src/main/java/io/pivotal/security/data/AccessControlDataService.java:138-143 | Returns one view per actor with a record on the credential, with that record's operations, and nothing else. Nothing changes. |
| `AccessControlData.AccessControlDataService.SaveAccessControlEntries` | src/main/java/io/pivotal/security/data/AccessControlDataService.java:36-47 | The new table is the old one with the requests upserted in order. Each request starts from the row in the snapshot taken at the start of the call, or from an empty entry. |
| `AccessControlData.AccessControlDataService.UpsertAccessEntryOperations` | src/main/java/io/pivotal/security/data/AccessControlDataService.java:115-125 | Stores the actor's snapshot row, or a new entry, with the requested operations enabled. The snapshot stays in step with the table. |
| `AccessControlData.AccessControlDataService.GetAllowedOperations` | src/main/java/io/pivotal/security/data/AccessControlDataService.java:49-73 | Empty when there is no record. Otherwise it lists exactly the granted operations, each once, in the fixed order. Nothing changes. |
| `AccessControlData.AccessControlDataService.DeleteAccessControlEntry` | src/main/java/io/pivotal/security/data/AccessControlDataService.java:75-78 | Removes only the (credential, actor) record. An absent record or an unknown name leaves the table unchanged. |
| `AccessControlData.AccessControlDataService.HasReadAclPermission` | src/main/java/io/pivotal/security/data/AccessControlDataService.java:80-85 | True exactly when a record exists and its read-acl flag is set. Nothing changes. |
| `AccessControlData.AccessControlDataService.HasAclWritePermission` | src/main/java/io/pivotal/security/data/AccessControlDataService.java:87-92 | True exactly when a record exists and its write-acl flag is set. Nothing changes. |
| `AccessControlData.AccessControlDataService.HasReadPermission` | src/main/java/io/pivotal/security/data/AccessControlDataService.java:94-99 | True exactly when a record exists and its read flag is set. Nothing changes. |
| `AccessControlData.AccessControlDataService.HasCredentialWritePermission` | src/main/java/io/pivotal/security/data/AccessControlDataService.java:101-106 | True exactly when a record exists and its write flag (not write-acl) is set. Nothing changes. |
| `AccessControlData.AccessControlDataService.HasCredentialDeletePermission` | src/main/java/io/pivotal/security/data/AccessControlDataService.java:108-113 | True exactly when a record exists and its delete flag is set. Nothing changes. |
| `AccessControlRequests.AccessControlHandler.constructor` | src/main/java/io/pivotal/security/handler/AccessControlHandler.java:23-32 | The handler works on the given data service. |
| `AccessControlRequests.AccessControlHandler.GetAccessControlListResponse` | src/main/java/io/pivotal/security/handler/AccessControlHandler.java:34-48 | An unknown name and a caller without read-acl both give the same `EntryNotFound`. Get never gives `PermissionDenied`. Success, exactly when both checks pass, returns the credential's name and its current ACL. Nothing changes. |
| `AccessControlRequests.AccessControlHandler.SetAccessControlEntries` | src/main/java/io/pivotal/security/handler/AccessControlHandler.java:50-61 | An unknown name gives `EntryNotFound` before any permission check. A caller without write-acl gets `PermissionDenied`. In both cases the table is unchanged. Otherwise the grants are upserted and the refreshed ACL is returned. |
| `AccessControlRequests.AccessControlHandler.DeleteAccessControlEntries` | src/main/java/io/pivotal/security/handler/AccessControlHandler.java:63-69 | A caller without write-acl gets `EntryNotFound` and the table is unchanged. Otherwise exactly the named actor's record is removed. |
| `AccessControlRequests.SetResponseShowsRequestedGrants` | src/main/java/io/pivotal/security/handler/AccessControlHandler.java:57-60 | The ACL returned by a successful set lists every actor named in the request. Each such actor's entry holds every operation of its last request. An actor that had a record lists exactly its old operations plus every operation requested for it. |
| `CredentialVersionRepository.FilterKeepsMultiplicity` | src/main/java/org/cloudfoundry/credhub/repository/CredentialVersionRepository.java:35-37 | A query's selection holds each accepted version exactly as often as the table does, and no rejected version. So a count is the number of matching versions. |
| `CredentialVersionRepository.InsertNewestFirst` | src/main/java/org/cloudfoundry/credhub/repository/CredentialVersionRepository.java:48 | Inserting a version into a history adds exactly that version. |
| `CredentialVersionRepository.NewestFirst` | src/main/java/org/cloudfoundry/credhub/repository/CredentialVersionRepository.java:48 | The newest-first order is a permutation of its input, sorted by non-increasing creation time. |
| `CredentialVersionRepository.LatestIndex` | src/main/java/org/cloudfoundry/credhub/repository/CredentialVersionRepository.java:23-24 | The chosen position is the latest version. No version is newer, and no version inserted after it is as new. |
| `CredentialVersionRepository.FirstOfNewestFirstIsLatest` | src/main/java/org/cloudfoundry/credhub/repository/CredentialVersionRepository.java:23-24 | The head of the newest-first order is the version the direct scan picks as latest, with the tie-break above. |
| `CredentialVersionRepository.LatestIsNewest` | src/main/java/org/cloudfoundry/credhub/repository/CredentialVersionRepository.java:23-24 | No version of a list is newer than its latest version, which is one of its versions. |
| `CredentialVersionRepository.FirstOfNewestFirstIsNewest` | src/main/java/org/cloudfoundry/credhub/repository/CredentialVersionRepository.java:23-24 | The newest-first head is absent only for an empty list. Otherwise it belongs to the list and nothing in the list is newer. |
| `CredentialVersionRepository.FindOneByUuid` | src/main/java/org/cloudfoundry/credhub/repository/CredentialVersionRepository.java:17 | Gives a version with that identifier, or nothing exactly when none exists. |
| `CredentialVersionRepository.FindLatestNonTransitionalCertificateVersion` | src/main/java/org/cloudfoundry/credhub/repository/CredentialVersionRepository.java:19-25 | Gives nothing exactly when the credential has no certificate version marked non-transitional. Otherwise it gives such a version, and no other such version is newer. A version with no certificate row is never chosen. The result is the direct scan's latest candidate, so the tie-break above decides between equal creation times. |
| `CredentialVersionRepository.FindTransitionalCertificateVersion` | src/main/java/org/cloudfoundry/credhub/repository/CredentialVersionRepository.java:27-33 | The same, for certificate versions marked transitional, including the tie-break. |
| `CredentialVersionRepository.NonTransitionalVersionKeepsTransitional` | src/main/java/org/cloudfoundry/credhub/repository/CredentialVersionRepository.java:19-33 | Adding a version that is not marked transitional leaves the transitional selection unchanged. |
| `CredentialVersionRepository.TransitionalVersionKeepsNonTransitional` | src/main/java/org/cloudfoundry/credhub/repository/CredentialVersionRepository.java:19-33 | Adding a version that is not marked non-transitional leaves the non-transitional selection unchanged. |
| `CredentialVersionRepository.NewestNonTransitionalVersionIsSelected` | src/main/java/org/cloudfoundry/credhub/repository/CredentialVersionRepository.java:19-25 | Take a new non-transitional certificate version of the credential that is at least as new as each earlier non-transitional certificate version of that credential. It becomes the non-transitional selection, whatever the other versions in the table. |
| `CredentialVersionRepository.CountByEncryptionKeyUuidNot` | src/main/java/org/cloudfoundry/credhub/repository/CredentialVersionRepository.java:35 | The count is at most the number of versions. It is zero exactly when every version is encrypted under the key. |
| `CredentialVersionRepository.CountByEncryptionKeyUuidIn` | src/main/java/org/cloudfoundry/credhub/repository/CredentialVersionRepository.java:37 | The count is at most the number of versions. It is zero exactly when no version is encrypted under any of the keys. |
| `CredentialVersionRepository.KeyCountsPartition` | src/main/java/org/cloudfoundry/credhub/repository/CredentialVersionRepository.java:35-37 | For one key K, the `In([K])` count plus the `Not(K)` count equals the number of versions. |
| `CredentialVersionRepository.KeysUnusedIffCountZero` | src/main/java/org/cloudfoundry/credhub/repository/CredentialVersionRepository.java:37 | The `In` count is zero exactly when no version is encrypted under any of the keys. |
| `CredentialVersionRepository.CountInIsMonotone` | src/main/java/org/cloudfoundry/credhub/repository/CredentialVersionRepository.java:37 | Counting under a larger set of keys never gives a smaller number. |
| `CredentialVersionRepository.FindByEncryptionKeyUuidIn` | src/main/java/org/cloudfoundry/credhub/repository/CredentialVersionRepository.java:46 | Holds exactly the versions encrypted under one of the keys. Its length is the `In` count. |
| `CredentialVersionRepository.FindAllByCredentialUuidOrderByVersionCreatedAtDesc` | src/main/java/org/cloudfoundry/credhub/repository/CredentialVersionRepository.java:48 | A permutation of exactly the credential's versions, sorted by non-increasing creation time. |
| `CredentialVersionRepository.FindAllByCredentialUuidAndTypeOrderByVersionCreatedAtDesc` | src/main/java/org/cloudfoundry/credhub/repository/CredentialVersionRepository.java:50 | A permutation of exactly the credential's versions of the given type, sorted by non-increasing creation time. |
| `CredentialVersionRepository.FindFirstByCredentialUuidOrderByVersionCreatedAtDesc` | src/main/java/org/cloudfoundry/credhub/repository/CredentialVersionRepository.java:52 | Gives nothing exactly when the credential has no version. Otherwise it gives the head of its newest-first history, which is the direct scan's latest version. |

## Left out

- Concurrency: the model runs one request at a time. The lost-update race between two concurrent grants is not modelled.
- Persistence: JPA entities, `saveAndFlush`, Spring wiring and SQL execution. The access-entry table is a map and the version table is a sequence. A save that fails partway, and its partial effect, is not modelled.
- SaveAccessControlEntries: take an actor with no record who is named twice in one call. The code inserts a second new entity for it. A map holds one record per key, so the model keeps only the last one. Whether the database then holds two rows or rejects the second is not part of this model.
- DuplicateNewActorKeepsLastRequestOnly: its end state, WRITE without READ, comes from the map replacing the first new entry. The database would keep the READ row beside the WRITE row, or fail the save.
- UpsertedCreatesNewActor: when an actor without a record is named more than once, "exactly the operations of its last request" relies on the same map overwrite. For an actor named once it matches the code.
- SetResponseShowsRequestedGrants: for an actor without a record named more than once, the listed entry relies on the same map overwrite. The database's listing would show one view per row.
- Authentication and `UserContext`: the caller is its actor string. The permission service is folded into direct calls to the data service's checks, which read the same flags.
- Exception messages and response DTO shaping: errors are `Outcome` values, and a response is a name plus a list of views.
- `countGroupByEncryptedCredentialValue`: as written, its join and `group by` are commented out, so it is not a per-key count, and the per-key grouping it was meant to give is not modelled.
- Paging: the `Pageable`/`Slice` form of `findByEncryptedCredentialValueEncryptionKeyUuidIn` and `BATCH_SIZE`. Only the unpaged filter is modelled.
- FindAllByCredentialUuidOrderByVersionCreatedAtDesc: its order among versions with equal creation times follows the tie-break above. It is proved only for the head of the history, not for every position.
- Encryption keys: every version has an encryption key. A missing encrypted value, and its SQL NULL semantics in the key counts, is not modelled.
- `RequireValidCertificate`: an annotation declaration with no logic. The certificate validator it names is not part of this model.
