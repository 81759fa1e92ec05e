/** The objects behind the key store: shared storage, views of it, and the provider that publishes it. */
module KeyProviders {
  import opened Bytes
  import opened TransportModel
  import opened KeyEntries

  /** KeyMaterialStorage, with the count of the shared pointers to it. */
  class KeyMaterialStorage {
    const bytes: array<byte>
    var owners: nat

    constructor (key: seq<byte>)
      ensures fresh(bytes) && bytes[..] == key && owners == 1
    {
      bytes := new byte[|key|](i requires 0 <= i < |key| => key[i]);
      owners := 1;
    }

    method Share()
      modifies this
      ensures owners == old(owners) + 1
    {
      owners := owners + 1;
    }

    /** Gives up one shared pointer; the last one runs the destructor, which overwrites every byte. */
    method Release()
      requires owners > 0
      modifies this, bytes
      ensures LosesOwner(this)
    {
      owners := owners - 1;
      if owners == 0 {
        var index := 0;
        while index < bytes.Length
          modifies bytes
          invariant index <= bytes.Length
          invariant forall j :: 0 <= j < index ==> bytes[j] == 0
        {
          bytes[index] := 0;
          index := index + 1;
        }
      }
    }
  }

  /** One shared pointer was given up since the old state, and if it was the last one every byte is zero. */
  twostate predicate LosesOwner(storage: KeyMaterialStorage)
    reads storage, storage.bytes
  {
    storage.owners == old(storage.owners) - 1 &&
    storage.bytes[..] == if storage.owners == 0 then Zeros(storage.bytes.Length) else old(storage.bytes[..])
  }

  /** KeyMaterialView: null storage is the empty view. */
  class KeyMaterialView {
    var keyID: uint32
    var storage: KeyMaterialStorage?

    constructor ()
      ensures storage == null && keyID == 0
    {
      keyID, storage := 0, null;
    }

    predicate Empty()
      reads this, storage
    {
      storage == null || storage.bytes.Length == 0
    }

    /** The assignment `key = {}`. */
    method Drop()
      requires storage != null ==> storage.owners > 0
      modifies this, storage, if storage == null then {} else {storage.bytes}
      ensures storage == null && keyID == 0
      ensures old(storage) != null ==> LosesOwner(old(storage))
    {
      if storage != null {
        storage.Release();
      }
      keyID, storage := 0, null;
    }

    /**
     Binds the view, empty or not, to storage or to none. The new share is there before the old one
     is given up, so binding a view to what it holds already leaves that alone.
     */
    method Bind(keyID: uint32, storage: KeyMaterialStorage?)
      requires this.storage != null ==> this.storage.owners > 0
      requires this.storage != null && storage != null && this.storage != storage ==> this.storage.bytes != storage.bytes
      modifies this, storage, this.storage, if this.storage == null then {} else {this.storage.bytes}
      ensures this.keyID == keyID && this.storage == storage
      ensures storage != null && storage != old(this.storage) ==>
        storage.owners == old(storage.owners) + 1 && unchanged(storage.bytes)
      ensures storage != null && storage == old(this.storage) ==>
        storage.owners == old(storage.owners) && storage.bytes[..] == old(storage.bytes[..])
      ensures old(this.storage) != null && old(this.storage) != storage ==> LosesOwner(old(this.storage))
    {
      if storage != null {
        storage.Share();
      }
      if this.storage != null {
        this.storage.Release();
      }
      this.keyID, this.storage := keyID, storage;
    }
  }

  /** No two entries share storage. */
  ghost predicate OwnStorage(entries: seq<Entry<KeyMaterialStorage>>) {
    forall i, j :: 0 <= i < j < |entries| ==>
      entries[i].storage != entries[j].storage && entries[i].storage.bytes != entries[j].storage.bytes
  }

  lemma WithoutKeepsOwnStorage(entries: seq<Entry<KeyMaterialStorage>>, i: nat)
    requires OwnStorage(entries) && i < |entries|
    ensures OwnStorage(Without(entries, i))
    ensures forall j :: 0 <= j < |Without(entries, i)| ==>
      var e := Without(entries, i)[j];
      e in entries && e.storage != entries[i].storage && e.storage.bytes != entries[i].storage.bytes
  {
  }

  class StaticKeyProvider {
    var entries: seq<Entry<KeyMaterialStorage>>

    /** Every entry owns storage of its own, still alive, under a legal key ID. */
    ghost predicate Valid()
      reads this, set e | e in entries :: e.storage
    {
      UniqueRefs(entries) &&
      (forall i :: 0 <= i < |entries| ==>
        entries[i].storage.owners > 0 && entries[i].storage.bytes.Length > 0 && entries[i].ref.keyID != 0) &&
      OwnStorage(entries)
    }

    /** The storage the list keeps under `ref`, with its bytes. */
    ghost function StorageOf(ref: KeyRef): set<object>
      reads this
    {
      var stored := StoredAt(entries, ref);
      if stored.Some? then {stored.value, stored.value.bytes} else {}
    }

    ghost function StoredUnder(ref: KeyRef): set<object>
      reads this
    {
      var stored := StoredAt(entries, ref);
      if stored.Some? then {stored.value} else {}
    }

    constructor ()
      ensures Valid() && entries == []
    {
      entries := [];
    }

    method FindLocked(ref: KeyRef) returns (found: nat)
      ensures found == FindEntry(entries, ref)
    {
      found := 0;
      while found < |entries| && entries[found].ref != ref
        invariant found <= |entries|
        invariant FindEntry(entries, ref) == found + FindEntry(entries[found..], ref)
      {
        assert entries[found..][1..] == entries[found + 1..];
        found := found + 1;
      }
    }

    /** Adds or replaces a key. The replaced storage loses one owner; all other storage stays as it is. */
    method Add(ref: KeyRef, key: Span, canAllocate: bool, canGrow: bool) returns (added: bool)
      requires Valid()
      modifies this, StorageOf(ref)
      ensures Valid()
      ensures added <==> ref.keyID != 0 && key.Span? && key.Size() > 0 && canAllocate &&
                         (canGrow || old(StoredAt(entries, ref)).Some?)
      ensures !added ==> entries == old(entries) && unchanged(old(StorageOf(ref)))
      ensures added ==>
        var stored := StoredAt(entries, ref);
        stored.Some? && fresh(stored.value) && stored.value.bytes[..] == key.Data() &&
        entries == Published(old(entries), ref, stored.value)
      ensures added && old(StoredAt(entries, ref)).Some? ==> LosesOwner(old(StoredAt(entries, ref)).value)
    {
      if ref.keyID == 0 || key.NullSpan? || key.Size() == 0 || !canAllocate {
        return false;
      }
      var storage := new KeyMaterialStorage(key.bytes);
      PublishUpdates(entries, ref, storage, ref);
      added := Publish(ref, storage, canGrow);
    }

    /** The section of Add under the lock: the storage is already there, and only the caller knows it. */
    method Publish(ref: KeyRef, storage: KeyMaterialStorage, canGrow: bool) returns (added: bool)
      requires Valid() && ref.keyID != 0
      requires storage.owners == 1 && storage.bytes.Length > 0
      requires forall e :: e in entries ==> e.storage != storage && e.storage.bytes != storage.bytes
      modifies this, StorageOf(ref), storage, storage.bytes
      ensures Valid()
      ensures added <==> canGrow || old(StoredAt(entries, ref)).Some?
      ensures !added ==> entries == old(entries) && unchanged(old(StorageOf(ref))) && LosesOwner(storage)
      ensures added ==> entries == Published(old(entries), ref, storage) && unchanged(storage, storage.bytes)
      ensures added && old(StoredAt(entries, ref)).Some? ==> LosesOwner(old(StoredAt(entries, ref)).value)
    {
      var found := FindLocked(ref);
      PublishUpdates(entries, ref, storage, ref);
      if found < |entries| {
        Replace(found, storage);
        return true;
      }
      if !canGrow {
        storage.Release();
        return false;
      }
      entries := entries + [Entry(ref, storage)];
      return true;
    }

    /** The assignment to the storage of the entry that was found. */
    method Replace(found: nat, storage: KeyMaterialStorage)
      requires Valid() && found < |entries|
      requires storage.owners == 1 && storage.bytes.Length > 0
      requires forall e :: e in entries ==> e.storage != storage && e.storage.bytes != storage.bytes
      modifies this, entries[found].storage, entries[found].storage.bytes
      ensures Valid()
      ensures entries == old(entries)[found := Entry(old(entries)[found].ref, storage)]
      ensures LosesOwner(old(entries)[found].storage)
    {
      var replaced := entries[found].storage;
      entries := entries[found := Entry(entries[found].ref, storage)];
      replaced.Release();
    }

    /** Removes a key; its storage loses one owner. */
    method Remove(ref: KeyRef) returns (removed: bool)
      requires Valid()
      modifies this, StorageOf(ref)
      ensures Valid()
      ensures removed <==> old(StoredAt(entries, ref)).Some?
      ensures entries == if removed then Without(old(entries), FindEntry(old(entries), ref)) else old(entries)
      ensures removed ==> LosesOwner(old(StoredAt(entries, ref)).value)
    {
      var found := FindLocked(ref);
      if found == |entries| {
        return false;
      }
      WithoutKeepsUnique(entries, found);
      WithoutKeepsOwnStorage(entries, found);
      var gone := entries[found].storage;
      entries := entries[..found] + entries[found + 1..];
      gone.Release();
      return true;
    }

    /** Removes every key: the swapped-out entries are given up one after the other. */
    method Clear()
      requires Valid()
      modifies this, (set e | e in entries :: e.storage), (set e | e in entries :: e.storage.bytes)
      ensures Valid() && entries == []
      ensures forall e :: e in old(entries) ==> LosesOwner(e.storage)
    {
      var removed := entries;
      entries := [];
      var i := 0;
      while i < |removed|
        invariant i <= |removed| && entries == []
        invariant forall j :: 0 <= j < i ==> LosesOwner(removed[j].storage)
        invariant forall j :: i <= j < |removed| ==> unchanged(removed[j].storage, removed[j].storage.bytes)
      {
        removed[i].storage.Release();
        i := i + 1;
      }
    }

    /** The storage is alive besides what the entries hold of it. */
    ghost predicate Borrowed(storage: KeyMaterialStorage)
      reads this, storage
    {
      storage.owners > 0 &&
      forall e :: e in entries ==>
        if e.storage == storage then storage.owners > 1 else e.storage.bytes != storage.bytes
    }

    /**
     Borrows a key. The view first gives up what it held; then it shares the storage of the entry,
     and it is never bound to an empty key.
     */
    method GetKey(ref: KeyRef, key: KeyMaterialView) returns (found: bool)
      requires Valid() && (key.storage != null ==> Borrowed(key.storage))
      modifies key, StoredUnder(ref)
      modifies key.storage, if key.storage == null then {} else {key.storage.bytes}
      ensures Valid() && entries == old(entries)
      ensures found <==> StoredAt(entries, ref).Some?
      ensures found ==>
        key.keyID == ref.keyID && key.storage == StoredAt(entries, ref).value && !key.Empty() &&
        key.storage.owners == old(StoredAt(entries, ref).value.owners) + if old(key.storage) == key.storage then 0 else 1
      ensures found ==> key.storage.bytes[..] == old(StoredAt(entries, ref).value.bytes[..])
      ensures !found ==> key.storage == null
      ensures old(key.storage) != null && old(key.storage) != key.storage ==> LosesOwner(old(key.storage))
    {
      key.Drop();
      found := Lend(ref, key);
    }

    /** The section of GetKey under the lock, for a view that is empty by then. */
    method Lend(ref: KeyRef, key: KeyMaterialView) returns (found: bool)
      requires Valid() && key.storage == null
      modifies key, StoredUnder(ref)
      ensures Valid() && entries == old(entries)
      ensures found <==> StoredAt(entries, ref).Some?
      ensures found ==>
        key.keyID == ref.keyID && key.storage == StoredAt(entries, ref).value && !key.Empty() &&
        key.storage.owners == old(StoredAt(entries, ref).value.owners) + 1
      ensures !found ==> key.storage == null
    {
      var i := FindLocked(ref);
      if i == |entries| {
        return false;
      }
      key.Bind(entries[i].ref.keyID, entries[i].storage);
      return !(key.storage == null || key.storage.bytes.Length == 0);
    }
  }
}
