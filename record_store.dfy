/**
 * The in-memory record store of the procedures lab: a table from string keys
 * to records (string-keyed maps of values), with create, read, update,
 * delete and clear. Records are Dafny maps, so every copy the store hands in
 * or out is a value and cannot be changed behind its back.
 */
module RecordStore {

  datatype Option<T> = None | Some(value: T)

  /** A stored record: field name to value. */
  type Record<V> = map<string, V>

  /** The whole store: key to record. */
  type Table<V> = map<string, Record<V>>

  /** Every key other than `key` is absent from both tables or has the same record in both. */
  ghost predicate SameElsewhere<V>(t: Table<V>, t': Table<V>, key: string)
  {
    forall k :: k != key ==> (k in t <==> k in t') && (k in t ==> t[k] == t'[k])
  }

  /** The table after a create: `key` holds `value`, present before or not. */
  function Inserted<V>(t: Table<V>, key: string, value: Record<V>): (r: Table<V>)
    ensures key in r && r[key] == value
    ensures SameElsewhere(t, r, key)
  {
    t[key := value]
  }

  /** A record after a patch is merged into it: patch fields win, other fields stay. */
  function Merged<V>(record: Record<V>, patch: Record<V>): (r: Record<V>)
    ensures r.Keys == record.Keys + patch.Keys
    ensures forall f :: f in patch ==> r[f] == patch[f]
    ensures forall f :: f in record && f !in patch ==> r[f] == record[f]
  {
    record + patch
  }

  /** The table after an update: a present `key` gets its record patched; an absent one changes nothing. */
  function Updated<V>(t: Table<V>, key: string, patch: Record<V>): (r: Table<V>)
    ensures key in r <==> key in t
    ensures key in t ==> r[key] == Merged(t[key], patch)
    ensures key !in t ==> r == t
    ensures SameElsewhere(t, r, key)
  {
    if key in t then t[key := Merged(t[key], patch)] else t
  }

  /** The table after a delete: `key` is gone; an absent one changes nothing. */
  function Removed<V>(t: Table<V>, key: string): (r: Table<V>)
    ensures key !in r
    ensures key !in t ==> r == t
    ensures SameElsewhere(t, r, key)
  {
    t - {key}
  }

  /** Creating a key that was absent and then deleting it gives back the table as it was. */
  lemma DeleteUndoesCreate<V>(t: Table<V>, key: string, value: Record<V>)
    requires key !in t
    ensures Removed(Inserted(t, key, value), key) == t
  {
  }

  /** Applying the same patch twice has the effect of applying it once. */
  lemma UpdateIdempotent<V>(t: Table<V>, key: string, patch: Record<V>)
    ensures Updated(Updated(t, key, patch), key, patch) == Updated(t, key, patch)
  {
    if key in t {
      var once := Merged(t[key], patch);
      assert Merged(once, patch) == once;
    }
  }

  /** The store object; `db` is the table that the operations rebind. */
  class Store<V> {
    var db: Table<V>

    /** A fresh store is empty. */
    constructor ()
      ensures db == map[]
    {
      db := map[];
    }

    /** Create or replace the record at `key`. */
    method CreateItem(key: string, value: Record<V>)
      modifies this
      ensures db == Inserted(old(db), key, value)
    {
      db := db[key := value];
    }

    /** The record at `key`, or None when `key` is absent; the store is not changed. */
    method ReadItem(key: string) returns (r: Option<Record<V>>)
      ensures r.None? <==> key !in db
      ensures r.Some? ==> r.value == db[key]
    {
      if key !in db {
        return None;
      }
      return Some(db[key]);
    }

    /** Merge `patch` into the record at `key`; false, with no change, when `key` is absent. */
    method UpdateItem(key: string, patch: Record<V>) returns (updated: bool)
      modifies this
      ensures updated <==> key in old(db)
      ensures db == Updated(old(db), key, patch)
    {
      if key !in db {
        return false;
      }
      db := db[key := db[key] + patch];
      return true;
    }

    /** Remove the record at `key`; false, with no change, when `key` is absent. */
    method DeleteItem(key: string) returns (deleted: bool)
      modifies this
      ensures deleted <==> key in old(db)
      ensures db == Removed(old(db), key)
    {
      if key in db {
        db := db - {key};
        return true;
      }
      return false;
    }

    /** Remove every record. */
    method ClearDb()
      modifies this
      ensures db == map[]
    {
      db := map[];
    }
  }

  /** Reading a key right after creating it yields the record just stored. */
  method CreateThenRead<V>(s: Store<V>, key: string, value: Record<V>) returns (r: Option<Record<V>>)
    modifies s
    ensures r == Some(value)
    ensures s.db == Inserted(old(s.db), key, value)
  {
    s.CreateItem(key, value);
    r := s.ReadItem(key);
  }

  /** Reading after an update sees the patch merged over the old record; a missing key stays missing. */
  method UpdateThenRead<V>(s: Store<V>, key: string, patch: Record<V>) returns (updated: bool, r: Option<Record<V>>)
    modifies s
    ensures updated <==> key in old(s.db)
    ensures updated ==> r == Some(Merged(old(s.db)[key], patch))
    ensures !updated ==> r == None && s.db == old(s.db)
  {
    updated := s.UpdateItem(key, patch);
    r := s.ReadItem(key);
  }

  /** Deleting the same key twice in a row: the second delete always reports false. */
  method DeleteTwice<V>(s: Store<V>, key: string) returns (first: bool, second: bool)
    modifies s
    ensures first <==> key in old(s.db)
    ensures !second
    ensures s.db == Removed(old(s.db), key)
  {
    first := s.DeleteItem(key);
    second := s.DeleteItem(key);
  }

  /** After a clear, reading any key finds nothing. */
  method ClearThenRead<V>(s: Store<V>, key: string) returns (r: Option<Record<V>>)
    modifies s
    ensures r == None
    ensures s.db == map[]
  {
    s.ClearDb();
    r := s.ReadItem(key);
  }

  /** The store scenarios listed for the lab, on concrete keys and records. */
  method StoreExamples()
  {
    var s := new Store<int>();
    s.CreateItem("k", map["a" := 1]);
    var r := s.ReadItem("k");
    assert r == Some(map["a" := 1]);

    var updated := s.UpdateItem("missing", map["a" := 1]);
    assert !updated && s.db == map["k" := map["a" := 1]];

    updated := s.UpdateItem("k", map["b" := 2]);
    var merged := Merged(map["a" := 1], map["b" := 2]);
    assert merged.Keys == {"a", "b"} && merged["a"] == 1 && merged["b"] == 2;
    assert merged == map["a" := 1, "b" := 2];
    r := s.ReadItem("k");
    assert updated && r == Some(map["a" := 1, "b" := 2]);

    var deleted := s.DeleteItem("k");
    assert deleted;
    deleted := s.DeleteItem("k");
    assert !deleted;

    s.CreateItem("k", map["a" := 1]);
    s.ClearDb();
    r := s.ReadItem("k");
    assert r == None;
  }
}
