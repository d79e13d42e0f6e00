/**
  The permission model of the credential store: the five operations, the
  five-flag permission record kept per (credential, actor), the view that
  lists a record's operations, and the specification functions that say
  what the ACL engine's operations do to the table of records.
*/
module AccessControl {
  import opened SharedTypes

  type Actor = string

  /** The five operations an access entry can grant, in their fixed listing order. */
  datatype Operation = Read | Write | Delete | ReadAcl | WriteAcl

  /** Position of an operation in the fixed listing order READ, WRITE, DELETE, READ_ACL, WRITE_ACL. */
  function Rank(op: Operation): nat {
    match op
    case Read => 0
    case Write => 1
    case Delete => 2
    case ReadAcl => 3
    case WriteAcl => 4
  }

  /** The permission record of one actor on one credential: one flag per operation. */
  datatype Flags = Flags(read: bool, write: bool, delete: bool, readAcl: bool, writeAcl: bool)

  /** A freshly constructed record grants nothing. */
  const NoFlags := Flags(false, false, false, false, false)

  predicate Permits(f: Flags, op: Operation) {
    match op
    case Read => f.read
    case Write => f.write
    case Delete => f.delete
    case ReadAcl => f.readAcl
    case WriteAcl => f.writeAcl
  }

  /** Switches on the flag of every listed operation; no flag is ever switched off. */
  function EnableOperations(f: Flags, ops: seq<Operation>): (r: Flags)
    ensures forall op :: Permits(r, op) <==> Permits(f, op) || op in ops
  {
    Flags(f.read || Read in ops, f.write || Write in ops, f.delete || Delete in ops,
          f.readAcl || ReadAcl in ops, f.writeAcl || WriteAcl in ops)
  }

  /** Strictly increasing in the fixed order: hence also free of duplicates. */
  predicate InCanonicalOrder(ops: seq<Operation>) {
    forall i, j :: 0 <= i < j < |ops| ==> Rank(ops[i]) < Rank(ops[j])
  }

  /** The operations a record grants, each once, in the fixed order. */
  function OperationsOf(f: Flags): (ops: seq<Operation>)
    ensures forall op :: op in ops <==> Permits(f, op)
    ensures InCanonicalOrder(ops)
  {
    var r := if f.read then [Read] else [];
    var w := if f.write then r + [Write] else r;
    var d := if f.delete then w + [Delete] else w;
    var ra := if f.readAcl then d + [ReadAcl] else d;
    if f.writeAcl then ra + [WriteAcl] else ra
  }

  lemma RankIsInjective(a: Operation, b: Operation)
    requires Rank(a) == Rank(b)
    ensures a == b
  {
  }

  /** Two canonically ordered lists with the same operations are the same list. */
  lemma {:induction false} CanonicalListingIsUnique(xs: seq<Operation>, ys: seq<Operation>)
    requires InCanonicalOrder(xs) && InCanonicalOrder(ys)
    requires forall op :: op in xs <==> op in ys
    ensures xs == ys
  {
    if xs != [] {
      assert xs[0] in ys;
    }
    if ys != [] {
      assert ys[0] in xs;
    }
    if xs != [] {
      assert xs[0] == ys[0] by {
        var k :| 0 <= k < |ys| && ys[k] == xs[0];
        var m :| 0 <= m < |xs| && xs[m] == ys[0];
        assert Rank(ys[0]) <= Rank(ys[k]);
        assert Rank(xs[0]) <= Rank(xs[m]);
        RankIsInjective(xs[0], ys[0]);
      }
      forall op
        ensures op in xs[1..] <==> op in ys[1..]
      {
        if op in xs[1..] {
          var i :| 1 <= i < |xs| && xs[i] == op;
          assert Rank(xs[0]) < Rank(xs[i]);
          assert op in ys;
        }
        if op in ys[1..] {
          var i :| 1 <= i < |ys| && ys[i] == op;
          assert Rank(ys[0]) < Rank(ys[i]);
          assert op in xs;
        }
      }
      CanonicalListingIsUnique(xs[1..], ys[1..]);
    }
  }

  /** Any list of exactly the granted operations, in the fixed order, is the record's listing. */
  lemma ListingOfRecordIsUnique(f: Flags, ops: seq<Operation>)
    requires InCanonicalOrder(ops)
    requires forall op :: op in ops <==> Permits(f, op)
    ensures ops == OperationsOf(f)
  {
    CanonicalListingIsUnique(ops, OperationsOf(f));
  }

  /** Granting a canonically ordered list to an empty record lists back that very list. */
  lemma GrantThenListRoundTrip(ops: seq<Operation>)
    requires InCanonicalOrder(ops)
    ensures OperationsOf(EnableOperations(NoFlags, ops)) == ops
  {
    CanonicalListingIsUnique(ops, OperationsOf(EnableOperations(NoFlags, ops)));
  }

  /** Granting the listing of a record to an empty record rebuilds that record. */
  lemma ListThenGrantRoundTrip(f: Flags)
    ensures EnableOperations(NoFlags, OperationsOf(f)) == f
  {
  }

  /** Grants compose by concatenation, and their order does not matter. */
  lemma EnableOperationsComposes(f: Flags, xs: seq<Operation>, ys: seq<Operation>)
    ensures EnableOperations(EnableOperations(f, xs), ys) == EnableOperations(f, xs + ys)
    ensures EnableOperations(EnableOperations(f, xs), ys) == EnableOperations(EnableOperations(f, ys), xs)
    ensures EnableOperations(EnableOperations(f, xs), xs) == EnableOperations(f, xs)
  {
    assert forall op :: op in xs + ys <==> op in xs || op in ys;
  }

  // ----- Entities -----

  /** Key of the table of access entries: at most one record per (credential, actor). */
  datatype EntryKey = EntryKey(credentialUuid: Uuid, actor: Actor)

  /** The table of access entries. */
  type Acl = map<EntryKey, Flags>

  /** A resolved credential name: its identity and its name. */
  datatype CredentialName = CredentialName(uuid: Uuid, name: string)

  /** One row of the table for a fixed credential. */
  datatype AccessEntryData = AccessEntryData(actor: Actor, flags: Flags)

  /** The request and view form of an entry: an actor and a list of operations. */
  datatype AccessControlEntry = AccessControlEntry(actor: Actor, allowedOperations: seq<Operation>)

  /** A new entry for an actor, before any operation is enabled. */
  function NewAccessEntry(actor: Actor): (e: AccessEntryData)
    ensures e.actor == actor
    ensures forall op :: !Permits(e.flags, op)
  {
    AccessEntryData(actor, NoFlags)
  }

  /** The view of a row: its actor and its granted operations in the fixed order. */
  function CreateViewFor(e: AccessEntryData): (v: AccessControlEntry)
    ensures v.actor == e.actor
    ensures forall op :: op in v.allowedOperations <==> Permits(e.flags, op)
    ensures InCanonicalOrder(v.allowedOperations)
  {
    AccessControlEntry(e.actor, OperationsOf(e.flags))
  }

  /** Position of the first row of the list that belongs to the actor, if any. */
  function FindAccessEntryForActor(rows: seq<AccessEntryData>, actor: Actor): (r: Option<nat>)
    ensures r.None? <==> forall i :: 0 <= i < |rows| ==> rows[i].actor != actor
    ensures r.Some? ==> r.value < |rows| && rows[r.value].actor == actor
    ensures r.Some? ==> forall i :: 0 <= i < r.value ==> rows[i].actor != actor
  {
    if rows == [] then None
    else if rows[0].actor == actor then Some(0)
    else
      match FindAccessEntryForActor(rows[1..], actor)
      case None => None
      case Some(i) => Some(i + 1)
  }

  /** The actors that hold a record on the credential. */
  ghost function ActorsWithRecord(acl: Acl, cid: Uuid): set<Actor> {
    set k | k in acl && k.credentialUuid == cid :: k.actor
  }

  /**
    `rows` is a list of the credential's rows: one per actor, each agreeing
    with the table, covering exactly the actors in `known`.
  */
  ghost predicate IsSnapshot(acl: Acl, cid: Uuid, rows: seq<AccessEntryData>, known: set<Actor>) {
    && (forall i, j :: 0 <= i < j < |rows| ==> rows[i].actor != rows[j].actor)
    && (forall i :: 0 <= i < |rows| ==> rows[i].actor in known)
    && (forall a :: a in known ==> exists i :: 0 <= i < |rows| && rows[i].actor == a)
    && (forall i :: 0 <= i < |rows| ==>
          EntryKey(cid, rows[i].actor) in acl && acl[EntryKey(cid, rows[i].actor)] == rows[i].flags)
  }

  /** `view` lists the credential's ACL: one view per actor holding a record, and nothing else. */
  ghost predicate IsAclView(acl: Acl, cid: Uuid, view: seq<AccessControlEntry>) {
    && (forall i, j :: 0 <= i < j < |view| ==> view[i].actor != view[j].actor)
    && (forall i :: 0 <= i < |view| ==>
          EntryKey(cid, view[i].actor) in acl
          && view[i].allowedOperations == OperationsOf(acl[EntryKey(cid, view[i].actor)]))
    && (forall a :: a in ActorsWithRecord(acl, cid) ==> exists i :: 0 <= i < |view| && view[i].actor == a)
  }

  // ----- Lookups -----

  /** Name resolution: a credential name that is not known resolves to nothing. */
  function Find(names: map<string, CredentialName>, name: string): (r: Option<CredentialName>)
    ensures r.Some? <==> name in names
  {
    if name in names then Some(names[name]) else None
  }

  /** The record of an actor on a (possibly unresolved) credential; nothing matches an unresolved one. */
  function FindByCredentialNameAndActor(acl: Acl, cn: Option<CredentialName>, actor: Actor): (r: Option<Flags>)
    ensures r.Some? <==> cn.Some? && EntryKey(cn.value.uuid, actor) in acl
    ensures r.Some? ==> r.value == acl[EntryKey(cn.value.uuid, actor)]
  {
    if cn.Some? && EntryKey(cn.value.uuid, actor) in acl then Some(acl[EntryKey(cn.value.uuid, actor)])
    else None
  }

  /** The record of an actor on the credential with the given name. */
  function EntryFor(acl: Acl, names: map<string, CredentialName>, name: string, actor: Actor): Option<Flags> {
    FindByCredentialNameAndActor(acl, Find(names, name), actor)
  }

  /** Whether the actor holds `op` on the named credential; a missing record means deny. */
  predicate Granted(acl: Acl, names: map<string, CredentialName>, name: string, actor: Actor, op: Operation) {
    match EntryFor(acl, names, name, actor)
    case None => false
    case Some(f) => Permits(f, op)
  }

  /** The operations the actor holds on the named credential, as listed to callers. */
  function AllowedOperations(acl: Acl, names: map<string, CredentialName>, name: string, actor: Actor): (ops: seq<Operation>)
    ensures EntryFor(acl, names, name, actor).None? ==> ops == []
    ensures forall op :: op in ops <==> Granted(acl, names, name, actor, op)
    ensures InCanonicalOrder(ops)
  {
    match EntryFor(acl, names, name, actor)
    case None => []
    case Some(f) => OperationsOf(f)
  }

  /** A granted operation is one held in a record that exists for a resolved name. */
  lemma GrantedNeedsRecord(acl: Acl, names: map<string, CredentialName>, name: string, actor: Actor, op: Operation)
    requires Granted(acl, names, name, actor, op)
    ensures name in names && EntryKey(names[name].uuid, actor) in acl
    ensures Permits(acl[EntryKey(names[name].uuid, actor)], op)
  {
  }

  // ----- Deletion -----

  /** The table after deleting the actor's record on a (possibly unresolved) credential. */
  function DeleteByCredentialNameAndActor(acl: Acl, cn: Option<CredentialName>, actor: Actor): (r: Acl)
    ensures cn.Some? ==> EntryKey(cn.value.uuid, actor) !in r
    ensures forall k :: (cn.None? || k != EntryKey(cn.value.uuid, actor)) ==>
              (k in r <==> k in acl) && (k in r ==> r[k] == acl[k])
  {
    if cn.None? then acl else acl - {EntryKey(cn.value.uuid, actor)}
  }

  /** Deleting twice is deleting once; deleting an absent record changes nothing. */
  lemma DeleteIsIdempotent(acl: Acl, cn: Option<CredentialName>, actor: Actor)
    ensures var once := DeleteByCredentialNameAndActor(acl, cn, actor);
            DeleteByCredentialNameAndActor(once, cn, actor) == once
    ensures cn.Some? && EntryKey(cn.value.uuid, actor) !in acl ==> DeleteByCredentialNameAndActor(acl, cn, actor) == acl
  {
  }

  // ----- Upsert -----

  /**
    One upsert of `saveAccessControlEntries`. `known` holds the actors found
    in the snapshot taken before the loop: those rows are the stored objects
    themselves, so their current flags are the base; any other actor starts
    from a new, empty entry, even if this call already stored one for it.
  */
  function UpsertOne(acl: Acl, cid: Uuid, known: set<Actor>, ace: AccessControlEntry): (r: Acl)
    ensures EntryKey(cid, ace.actor) in r
    ensures forall k :: k != EntryKey(cid, ace.actor) ==> (k in r <==> k in acl) && (k in acl ==> r[k] == acl[k])
  {
    var key := EntryKey(cid, ace.actor);
    var base := if ace.actor in known && key in acl then acl[key] else NoFlags;
    acl[key := EnableOperations(base, ace.allowedOperations)]
  }

  /**
    The requested upserts applied in the caller's order: no record is
    dropped, and a record appears only for an actor the requests name.
  */
  function Upserted(acl: Acl, cid: Uuid, known: set<Actor>, requests: seq<AccessControlEntry>): (r: Acl)
    ensures forall k :: k in acl ==> k in r
    ensures forall k :: k in r && k !in acl ==>
              k.credentialUuid == cid && exists i :: 0 <= i < |requests| && requests[i].actor == k.actor
  {
    if requests == [] then acl
    else
      var prefix := requests[..|requests| - 1];
      assert forall i :: 0 <= i < |prefix| ==> prefix[i] == requests[i];
      UpsertOne(Upserted(acl, cid, known, prefix), cid, known, requests[|requests| - 1])
  }

  /** Every operation requested for `actor` in the list, in request order. */
  function RequestedFor(requests: seq<AccessControlEntry>, actor: Actor): (ops: seq<Operation>)
    ensures forall op :: op in ops <==> exists i :: 0 <= i < |requests| && requests[i].actor == actor && op in requests[i].allowedOperations
  {
    if requests == [] then []
    else
      var last := requests[|requests| - 1];
      var prefix := requests[..|requests| - 1];
      var ops := RequestedFor(prefix, actor) + (if last.actor == actor then last.allowedOperations else []);
      assert forall i :: 0 <= i < |prefix| ==> prefix[i] == requests[i];
      ops
  }

  /** A record of an actor the request list does not name, or of another credential, is untouched. */
  lemma {:induction false} UpsertedLeavesOthers(acl: Acl, cid: Uuid, known: set<Actor>, requests: seq<AccessControlEntry>, k: EntryKey)
    requires k.credentialUuid != cid || forall i :: 0 <= i < |requests| ==> requests[i].actor != k.actor
    ensures var r := Upserted(acl, cid, known, requests);
            (k in r <==> k in acl) && (k in acl ==> r[k] == acl[k])
  {
    if requests != [] {
      UpsertedLeavesOthers(acl, cid, known, requests[..|requests| - 1], k);
    }
  }

  /**
    An actor with a record in the snapshot ends with its old flags plus every
    operation requested for it, across all its occurrences in the list.
  */
  lemma {:induction false} UpsertedMergesKnownActor(acl: Acl, cid: Uuid, known: set<Actor>, requests: seq<AccessControlEntry>, actor: Actor)
    requires actor in known && EntryKey(cid, actor) in acl
    ensures var r := Upserted(acl, cid, known, requests);
            EntryKey(cid, actor) in r && r[EntryKey(cid, actor)] == EnableOperations(acl[EntryKey(cid, actor)], RequestedFor(requests, actor))
  {
    if requests != [] {
      var prefix := requests[..|requests| - 1];
      var last := requests[|requests| - 1];
      UpsertedMergesKnownActor(acl, cid, known, prefix, actor);
      EnableOperationsComposes(acl[EntryKey(cid, actor)], RequestedFor(prefix, actor),
                               if last.actor == actor then last.allowedOperations else []);
    }
  }

  /**
    An actor without a record in the snapshot ends with exactly the operations
    of its LAST occurrence in the list: each occurrence starts a new entry.
  */
  lemma {:induction false} UpsertedCreatesNewActor(acl: Acl, cid: Uuid, known: set<Actor>, requests: seq<AccessControlEntry>, j: nat)
    requires j < |requests| && requests[j].actor !in known
    requires forall i :: j < i < |requests| ==> requests[i].actor != requests[j].actor
    ensures var r := Upserted(acl, cid, known, requests);
            var key := EntryKey(cid, requests[j].actor);
            key in r && r[key] == EnableOperations(NoFlags, requests[j].allowedOperations)
  {
    if j < |requests| - 1 {
      var prefix := requests[..|requests| - 1];
      UpsertedCreatesNewActor(acl, cid, known, prefix, j);
    }
  }

  /** A save never clears a flag and never drops a record of the credential's table. */
  lemma UpsertedNeverClears(acl: Acl, cid: Uuid, requests: seq<AccessControlEntry>, k: EntryKey, op: Operation)
    requires k in acl && Permits(acl[k], op)
    ensures var r := Upserted(acl, cid, ActorsWithRecord(acl, cid), requests);
            k in r && Permits(r[k], op)
  {
    if k.credentialUuid == cid && exists i :: 0 <= i < |requests| && requests[i].actor == k.actor {
      assert k.actor in ActorsWithRecord(acl, cid);
      UpsertedMergesKnownActor(acl, cid, ActorsWithRecord(acl, cid), requests, k.actor);
    } else {
      UpsertedLeavesOthers(acl, cid, ActorsWithRecord(acl, cid), requests, k);
    }
  }

  /**
    Two requests for the same actor, who has no record yet, in one save: each
    starts from a new entry, and in the table, which holds one record per
    (credential, actor), the second request's entry replaces the first.
  */
  lemma DuplicateNewActorKeepsLastRequestOnly(acl: Acl, cid: Uuid, actor: Actor)
    requires EntryKey(cid, actor) !in acl
    ensures var requests := [AccessControlEntry(actor, [Read]), AccessControlEntry(actor, [Write])];
            var r := Upserted(acl, cid, ActorsWithRecord(acl, cid), requests);
            EntryKey(cid, actor) in r && !Permits(r[EntryKey(cid, actor)], Read) && Permits(r[EntryKey(cid, actor)], Write)
  {
    var requests := [AccessControlEntry(actor, [Read]), AccessControlEntry(actor, [Write])];
    assert actor !in ActorsWithRecord(acl, cid);
    UpsertedCreatesNewActor(acl, cid, ActorsWithRecord(acl, cid), requests, 1);
  }
}
