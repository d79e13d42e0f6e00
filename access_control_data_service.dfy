/**
  The ACL engine: the table of access entries, held as a map from
  (credential, actor) to the five permission flags, and the operations the
  credential store runs on it.
*/
module AccessControlData {
  import opened SharedTypes
  import opened AccessControl

  class AccessControlDataService {
    /** The access-entry table. */
    var entries: Acl
    /** The credential-name store this service resolves names against; read-only here. */
    const names: map<string, CredentialName>

    constructor (names: map<string, CredentialName>, entries: Acl)
      ensures this.names == names && this.entries == entries
    {
      this.names := names;
      this.entries := entries;
    }

    /**
      The repository query for all rows of a credential. The table has no
      order of its own, so the rows come in an arbitrary order.
    */
    method FindAllByCredentialNameUuid(uuid: Uuid) returns (rows: seq<AccessEntryData>)
      ensures IsSnapshot(entries, uuid, rows, ActorsWithRecord(entries, uuid))
    {
      ghost var all := ActorsWithRecord(entries, uuid);
      var pending := set k | k in entries && k.credentialUuid == uuid :: k.actor;
      rows := [];
      while pending != {}
        invariant pending <= all
        invariant forall i, j :: 0 <= i < j < |rows| ==> rows[i].actor != rows[j].actor
        invariant forall i :: 0 <= i < |rows| ==> rows[i].actor in all && rows[i].actor !in pending
        invariant forall a :: a in all && a !in pending ==> exists i :: 0 <= i < |rows| && rows[i].actor == a
        invariant forall i :: 0 <= i < |rows| ==>
                    EntryKey(uuid, rows[i].actor) in entries && entries[EntryKey(uuid, rows[i].actor)] == rows[i].flags
        decreases pending
      {
        var actor :| actor in pending;
        ghost var before := rows;
        rows := rows + [AccessEntryData(actor, entries[EntryKey(uuid, actor)])];
        forall a | a in all && a !in pending - {actor}
          ensures exists i :: 0 <= i < |rows| && rows[i].actor == a
        {
          if a == actor {
            assert rows[|before|].actor == a;
          } else {
            var i :| 0 <= i < |before| && before[i].actor == a;
            assert rows[i].actor == a;
          }
        }
        pending := pending - {actor};
      }
    }

    /** The ACL of a credential: one view per actor holding a record on it. */
    method GetAccessControlList(credentialName: CredentialName) returns (acl: seq<AccessControlEntry>)
      ensures IsAclView(entries, credentialName.uuid, acl)
    {
      var rows := FindAllByCredentialNameUuid(credentialName.uuid);
      acl := [];
      for i := 0 to |rows|
        invariant |acl| == i
        invariant forall j :: 0 <= j < i ==> acl[j] == CreateViewFor(rows[j])
      {
        acl := acl + [CreateViewFor(rows[i])];
      }
      forall a | a in ActorsWithRecord(entries, credentialName.uuid)
        ensures exists i :: 0 <= i < |acl| && acl[i].actor == a
      {
        var i :| 0 <= i < |rows| && rows[i].actor == a;
        assert acl[i].actor == a;
      }
    }

    /**
      Merges the requested grants into the credential's ACL, in request order.
      The rows present when the call starts are read once; an actor among them
      gains the requested operations on top of the ones it holds, any other
      actor gets a new entry for every request that names it.
    */
    method SaveAccessControlEntries(credentialName: CredentialName, requests: seq<AccessControlEntry>)
      modifies this
      ensures entries == Upserted(old(entries), credentialName.uuid, ActorsWithRecord(old(entries), credentialName.uuid), requests)
    {
      ghost var known := ActorsWithRecord(entries, credentialName.uuid);
      var existing := FindAllByCredentialNameUuid(credentialName.uuid);
      for i := 0 to |requests|
        invariant IsSnapshot(entries, credentialName.uuid, existing, known)
        invariant entries == Upserted(old(entries), credentialName.uuid, known, requests[..i])
      {
        assert requests[..i + 1][..i] == requests[..i];
        existing := UpsertAccessEntryOperations(credentialName, existing, requests[i], known);
      }
      assert requests[..|requests|] == requests;
    }

    /**
      One upsert: finds the actor's row in the snapshot or starts a new entry,
      enables the requested operations on it and stores it. A row taken from
      the snapshot is the stored object itself, so the snapshot returned shows
      its new flags.
    */
    method UpsertAccessEntryOperations(credentialName: CredentialName, existing: seq<AccessEntryData>,
                                       ace: AccessControlEntry, ghost known: set<Actor>)
      returns (updated: seq<AccessEntryData>)
      requires IsSnapshot(entries, credentialName.uuid, existing, known)
      modifies this
      ensures entries == UpsertOne(old(entries), credentialName.uuid, known, ace)
      ensures IsSnapshot(entries, credentialName.uuid, updated, known)
    {
      var found := FindAccessEntryForActor(existing, ace.actor);
      var entry := if found.Some? then existing[found.value] else NewAccessEntry(ace.actor);
      entry := AccessEntryData(entry.actor, EnableOperations(entry.flags, ace.allowedOperations));
      updated := if found.Some? then existing[found.value := entry] else existing;
      entries := entries[EntryKey(credentialName.uuid, ace.actor) := entry.flags];
      assert |updated| == |existing| && forall i :: 0 <= i < |updated| ==> updated[i].actor == existing[i].actor;
      forall a | a in known
        ensures exists i :: 0 <= i < |updated| && updated[i].actor == a
      {
        var i :| 0 <= i < |existing| && existing[i].actor == a;
        assert updated[i].actor == a;
      }
    }

    /** The operations the actor holds on the named credential, in the fixed order; empty without a record. */
    method GetAllowedOperations(name: string, actor: Actor) returns (operations: seq<Operation>)
      ensures operations == AllowedOperations(entries, names, name, actor)
      ensures EntryFor(entries, names, name, actor).None? ==> operations == []
      ensures forall op :: op in operations <==> Granted(entries, names, name, actor, op)
      ensures InCanonicalOrder(operations)
    {
      operations := [];
      var credentialName := Find(names, name);
      var accessEntryData := FindByCredentialNameAndActor(entries, credentialName, actor);
      if accessEntryData.Some? {
        var f := accessEntryData.value;
        if f.read {
          operations := operations + [Read];
        }
        if f.write {
          operations := operations + [Write];
        }
        if f.delete {
          operations := operations + [Delete];
        }
        if f.readAcl {
          operations := operations + [ReadAcl];
        }
        if f.writeAcl {
          operations := operations + [WriteAcl];
        }
      }
    }

    /** Deletes the actor's record on the named credential; an absent record or name is a no-op. */
    method DeleteAccessControlEntry(name: string, actor: Actor)
      modifies this
      ensures entries == DeleteByCredentialNameAndActor(old(entries), Find(names, name), actor)
    {
      var credentialName := Find(names, name);
      entries := DeleteByCredentialNameAndActor(entries, credentialName, actor);
    }

    method HasReadAclPermission(actor: Actor, name: string) returns (r: bool)
      ensures r <==> Granted(entries, names, name, actor, ReadAcl)
    {
      var accessEntryData := FindByCredentialNameAndActor(entries, Find(names, name), actor);
      r := accessEntryData.Some? && accessEntryData.value.readAcl;
    }

    method HasAclWritePermission(actor: Actor, name: string) returns (r: bool)
      ensures r <==> Granted(entries, names, name, actor, WriteAcl)
    {
      var accessEntryData := FindByCredentialNameAndActor(entries, Find(names, name), actor);
      r := accessEntryData.Some? && accessEntryData.value.writeAcl;
    }

    method HasReadPermission(actor: Actor, name: string) returns (r: bool)
      ensures r <==> Granted(entries, names, name, actor, Read)
    {
      var accessEntryData := FindByCredentialNameAndActor(entries, Find(names, name), actor);
      r := accessEntryData.Some? && accessEntryData.value.read;
    }

    method HasCredentialWritePermission(actor: Actor, name: string) returns (r: bool)
      ensures r <==> Granted(entries, names, name, actor, Write)
    {
      var accessEntryData := FindByCredentialNameAndActor(entries, Find(names, name), actor);
      r := accessEntryData.Some? && accessEntryData.value.write;
    }

    method HasCredentialDeletePermission(actor: Actor, name: string) returns (r: bool)
      ensures r <==> Granted(entries, names, name, actor, Delete)
    {
      var accessEntryData := FindByCredentialNameAndActor(entries, Find(names, name), actor);
      r := accessEntryData.Some? && accessEntryData.value.delete;
    }
  }
}
