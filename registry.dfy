/** The StoredFile entity and the StoredFileRepository the controller saves
    it in: records kept in saving order, each given the next identity value. */
module Registry {
  import opened Common

  type UserName = string

  /** Instant.now() as the caller observed it. */
  type Instant = int

  /** One row of stored_files. The id is null until the row is saved. */
  datatype StoredFile = StoredFile(
    id: Option<int>,
    filename: string,
    contentType: Option<string>,
    size: Option<int>,
    storagePath: string,
    uploadedAt: Instant,
    owner: UserName)

  /** findById: the record saved under id, if any. */
  function Lookup(records: seq<StoredFile>, id: int): (r: Option<StoredFile>)
    ensures r.Some? ==> r.value in records && r.value.id == Some(id)
    ensures r.None? ==> forall i | 0 <= i < |records| :: records[i].id != Some(id)
    decreases |records|
  {
    if records == [] then None
    else if records[0].id == Some(id) then Some(records[0])
    else Lookup(records[1..], id)
  }

  /** findAllByOwner: the records of one owner, in saving order. */
  function OwnedBy(records: seq<StoredFile>, owner: UserName): (r: seq<StoredFile>)
    ensures |r| <= |records|
    ensures forall f | f in r :: f in records && f.owner == owner
    ensures forall f | f in records && f.owner == owner :: f in r
    decreases |records|
  {
    if records == [] then []
    else (if records[0].owner == owner then [records[0]] else []) + OwnedBy(records[1..], owner)
  }

  /** Saved records carry distinct identities below the next one. */
  predicate IdentitiesFresh(records: seq<StoredFile>, nextId: int) {
    && nextId >= 1
    && (forall i | 0 <= i < |records| :: records[i].id.Some? && 1 <= records[i].id.value < nextId)
    && (forall i, j | 0 <= i < j < |records| :: records[i].id != records[j].id)
  }

  /** The persistence exception save lets through when the database
      refuses the insert. */
  datatype SaveError = PersistenceFailed

  class StoredFileRepository {
    var records: seq<StoredFile>
    /** The identity the database hands out next. */
    var nextId: int

    ghost predicate Valid()
      reads this
    {
      IdentitiesFresh(records, nextId)
    }

    constructor ()
      ensures Valid() && records == [] && nextId == 1
    {
      records := [];
      nextId := 1;
    }

    /** save(entity) for a new entity. When the database accepts the
        insert (a parameter: the database is outside the model) the entity
        is given the next identity and appended; otherwise save throws and
        nothing is recorded. */
    method Save(draft: StoredFile, accepted: bool) returns (r: Result<StoredFile, SaveError>)
      requires Valid() && draft.id.None?
      modifies this
      ensures Valid()
      ensures !accepted ==> r == Err(PersistenceFailed) && records == old(records) && nextId == old(nextId)
      ensures accepted ==>
        r == Ok(draft.(id := Some(old(nextId)))) && records == old(records) + [r.value] && nextId == old(nextId) + 1
    {
      if !accepted {
        return Err(PersistenceFailed);
      }
      var saved := draft.(id := Some(nextId));
      records := records + [saved];
      nextId := nextId + 1;
      r := Ok(saved);
    }

    function FindById(id: int): Option<StoredFile>
      reads this
    {
      Lookup(records, id)
    }

    function FindAllByOwner(owner: UserName): seq<StoredFile>
      reads this
    {
      OwnedBy(records, owner)
    }
  }

  // ---------------------------------------------------------------------
  // properties
  // ---------------------------------------------------------------------

  /** A record appended is found by its identity unless an earlier record
      already has it; every other lookup is unchanged. */
  lemma {:induction false} LookupAppend(records: seq<StoredFile>, f: StoredFile, id: int)
    ensures Lookup(records + [f], id) ==
      if Lookup(records, id).Some? then Lookup(records, id)
      else if f.id == Some(id) then Some(f)
      else None
    decreases |records|
  {
    if records == [] {
      assert records + [f] == [f];
    } else {
      assert (records + [f])[1..] == records[1..] + [f];
      LookupAppend(records[1..], f, id);
    }
  }

  /** After save, findById of the new identity returns the saved record,
      and every earlier record is still found as before. */
  lemma FindAfterSave(records: seq<StoredFile>, nextId: int, draft: StoredFile, id: int)
    requires IdentitiesFresh(records, nextId)
    ensures Lookup(records + [draft.(id := Some(nextId))], nextId) == Some(draft.(id := Some(nextId)))
    ensures id != nextId ==> Lookup(records + [draft.(id := Some(nextId))], id) == Lookup(records, id)
    ensures IdentitiesFresh(records + [draft.(id := Some(nextId))], nextId + 1)
  {
    var saved := draft.(id := Some(nextId));
    LookupAppend(records, saved, nextId);
    LookupAppend(records, saved, id);
  }

  lemma {:induction false} OwnedByAppend(records: seq<StoredFile>, f: StoredFile, owner: UserName)
    ensures OwnedBy(records + [f], owner) == OwnedBy(records, owner) + (if f.owner == owner then [f] else [])
    decreases |records|
  {
    if records == [] {
      assert records + [f] == [f];
    } else {
      assert (records + [f])[1..] == records[1..] + [f];
      OwnedByAppend(records[1..], f, owner);
    }
  }

  /** After save, the owner's list gains the saved record at its end and
      every other owner's list is unchanged. */
  lemma ListAfterSave(records: seq<StoredFile>, saved: StoredFile, owner: UserName)
    ensures saved.owner == owner ==> OwnedBy(records + [saved], owner) == OwnedBy(records, owner) + [saved]
    ensures saved.owner != owner ==> OwnedBy(records + [saved], owner) == OwnedBy(records, owner)
  {
    OwnedByAppend(records, saved, owner);
  }
}
