/**
  The ACL request handler: get, set and delete-entry requests of an
  authenticated caller, with their not-found and permission outcomes.
  A caller who may not read a credential's ACL is told the credential does
  not exist; a caller who may not change it is told so plainly when setting
  and told "not found" when deleting.
*/
module AccessControlRequests {
  import opened SharedTypes
  import opened AccessControl
  import opened AccessControlData

  /** How a request ends: a value, or one of the two errors the handler raises. */
  datatype Outcome<T> = Ok(value: T) | EntryNotFound | PermissionDenied

  /** The response to a get or set: the credential's name and its ACL. */
  datatype AccessControlListResponse = AccessControlListResponse(credentialName: string, accessControlList: seq<AccessControlEntry>)

  class AccessControlHandler {
    const dataService: AccessControlDataService

    constructor (dataService: AccessControlDataService)
      ensures this.dataService == dataService
    {
      this.dataService := dataService;
    }

    /**
      Get: an unknown name is not found; a caller without read-acl permission
      is also told "not found"; otherwise the credential's name and ACL.
    */
    method GetAccessControlListResponse(actor: Actor, name: string) returns (r: Outcome<AccessControlListResponse>)
      ensures name !in dataService.names ==> r == EntryNotFound
      ensures name in dataService.names && !Granted(dataService.entries, dataService.names, name, actor, ReadAcl) ==>
                r == EntryNotFound
      ensures !r.PermissionDenied?
      ensures r.Ok? <==> name in dataService.names && Granted(dataService.entries, dataService.names, name, actor, ReadAcl)
      ensures r.Ok? ==> r.value.credentialName == dataService.names[name].name
      ensures r.Ok? ==> IsAclView(dataService.entries, dataService.names[name].uuid, r.value.accessControlList)
    {
      if name !in dataService.names {
        return EntryNotFound;
      }
      var credentialName := dataService.names[name];
      var permitted := dataService.HasReadAclPermission(actor, name);
      if !permitted {
        return EntryNotFound;
      }
      var acl := dataService.GetAccessControlList(credentialName);
      r := Ok(AccessControlListResponse(credentialName.name, acl));
    }

    /**
      Set: an unknown name is not found, checked before any permission; a
      caller without write-acl permission is denied and nothing changes;
      otherwise the grants are merged and the refreshed ACL is returned.
    */
    method SetAccessControlEntries(actor: Actor, name: string, requests: seq<AccessControlEntry>)
      returns (r: Outcome<AccessControlListResponse>)
      modifies dataService
      ensures name !in dataService.names ==> r == EntryNotFound && dataService.entries == old(dataService.entries)
      ensures name in dataService.names && !Granted(old(dataService.entries), dataService.names, name, actor, WriteAcl) ==>
                r == PermissionDenied && dataService.entries == old(dataService.entries)
      ensures name in dataService.names && Granted(old(dataService.entries), dataService.names, name, actor, WriteAcl) ==>
                var uuid := dataService.names[name].uuid;
                && r.Ok?
                && dataService.entries == Upserted(old(dataService.entries), uuid, ActorsWithRecord(old(dataService.entries), uuid), requests)
                && r.value.credentialName == dataService.names[name].name
                && IsAclView(dataService.entries, uuid, r.value.accessControlList)
    {
      if name !in dataService.names {
        return EntryNotFound;
      }
      var credentialName := dataService.names[name];
      var permitted := dataService.HasAclWritePermission(actor, name);
      if !permitted {
        return PermissionDenied;
      }
      dataService.SaveAccessControlEntries(credentialName, requests);
      var acl := dataService.GetAccessControlList(credentialName);
      r := Ok(AccessControlListResponse(credentialName.name, acl));
    }

    /**
      Delete: a caller without write-acl permission, on an existing or an
      unknown credential alike, is told "not found" and nothing changes;
      otherwise exactly the named actor's record is removed.
    */
    method DeleteAccessControlEntries(actor: Actor, credentialName: string, target: Actor) returns (r: Outcome<()>)
      modifies dataService
      ensures !Granted(old(dataService.entries), dataService.names, credentialName, actor, WriteAcl) ==>
                r == EntryNotFound && dataService.entries == old(dataService.entries)
      ensures Granted(old(dataService.entries), dataService.names, credentialName, actor, WriteAcl) ==>
                && r == Ok(())
                && dataService.entries == DeleteByCredentialNameAndActor(old(dataService.entries), Find(dataService.names, credentialName), target)
    {
      var permitted := dataService.HasAclWritePermission(actor, credentialName);
      if !permitted {
        return EntryNotFound;
      }
      dataService.DeleteAccessControlEntry(credentialName, target);
      r := Ok(());
    }
  }

  /**
    What a successful set returns: every actor named in the request appears
    in the refreshed ACL, listing every operation of its last request; an
    actor that had a record lists its old operations plus every operation
    requested for it.
  */
  lemma SetResponseShowsRequestedGrants(acl: Acl, cid: Uuid, requests: seq<AccessControlEntry>,
                                        view: seq<AccessControlEntry>, j: nat)
    requires IsAclView(Upserted(acl, cid, ActorsWithRecord(acl, cid), requests), cid, view)
    requires j < |requests|
    requires forall i :: j < i < |requests| ==> requests[i].actor != requests[j].actor
    ensures exists i :: 0 <= i < |view| && view[i].actor == requests[j].actor
    ensures forall i, op :: 0 <= i < |view| && view[i].actor == requests[j].actor && op in requests[j].allowedOperations ==>
              op in view[i].allowedOperations
    ensures var key := EntryKey(cid, requests[j].actor);
            key in acl ==>
              forall i :: 0 <= i < |view| && view[i].actor == requests[j].actor ==>
                view[i].allowedOperations == OperationsOf(EnableOperations(acl[key], RequestedFor(requests, requests[j].actor)))
  {
    var known := ActorsWithRecord(acl, cid);
    var after := Upserted(acl, cid, known, requests);
    var actor := requests[j].actor;
    var key := EntryKey(cid, actor);
    if actor in known {
      assert key in acl;
      UpsertedMergesKnownActor(acl, cid, known, requests, actor);
    } else {
      UpsertedCreatesNewActor(acl, cid, known, requests, j);
    }
    assert actor in ActorsWithRecord(after, cid);
  }
}
