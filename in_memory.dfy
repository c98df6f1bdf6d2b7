/**
 * The in-memory key-value store: a wrapper around one Ruby Hash that it
 * creates empty and then updates in place.
 */
module Store {
  import opened Wrappers
  import opened Entries
  import opened Hashes

  class InMemory<K(==), V> {
    /** `@db`: the Hash the store owns and exposes. */
    const db: Hash<K, V>

    ghost predicate Valid()
      reads this, db
    {
      db.Valid()
    }

    /** The records the store holds, by id. */
    function Contents(): map<K, V>
      reads this, db
    {
      db.Contents()
    }

    /** `InMemory.new`: a store over a fresh, empty Hash. */
    constructor ()
      ensures Valid() && fresh(db)
      ensures db.entries == [] && Contents() == map[]
      ensures Count() == 0
      ensures forall id :: Get(id) == None
    {
      db := new Hash();
    }

    /** `count`: the number of distinct ids stored. */
    function Count(): (n: nat)
      reads this, db
      requires Valid()
      ensures n == |Contents()|
    {
      db.Count()
    }

    /**
     * `list`: the store's own Hash, not a copy; changes made through it are
     * changes to the store.
     */
    function List(): (h: Hash<K, V>)
      reads this
      ensures h == db
      ensures h.Contents() == Contents()
    {
      db
    }

    /** `get(id)`: the record stored under id, or nil. */
    function Get(id: K): (r: Option<V>)
      reads this, db
      requires Valid()
      ensures r == if id in Contents() then Some(Contents()[id]) else None
    {
      db.Get(id)
    }

    /**
     * `add(id, data)`: stores data under id, overwriting any record there;
     * no other id changes; answers data.
     */
    method Add(id: K, data: V) returns (r: V)
      requires Valid()
      modifies db
      ensures Valid()
      ensures db.entries == Put(old(db.entries), id, data)
      ensures Contents() == old(Contents())[id := data]
      ensures Get(id) == Some(data)
      ensures Count() == if id in old(Contents()) then old(Count()) else old(Count()) + 1
      ensures r == data
    {
      r := db.Store(id, data);
    }

    /**
     * `remove(id)`: deletes the record stored under id, if any; no other id
     * changes; answers the Hash when a record was deleted and nil otherwise.
     */
    method Remove(id: K) returns (r: Option<Hash<K, V>>)
      requires Valid()
      modifies db
      ensures Valid()
      ensures db.entries == Reject(old(db.entries), KeyIs(id))
      ensures Contents() == old(Contents()) - {id}
      ensures Get(id) == None
      ensures Count() == if id in old(Contents()) then old(Count()) - 1 else old(Count())
      ensures id !in old(Contents()) ==> db.entries == old(db.entries) && r == None
      ensures id in old(Contents()) ==> r == Some(db)
    {
      RejectKey(db.entries, id);
      if id !in db.Contents() {
        RejectAbsent(db.entries, id);
      }
      r := db.RejectIf(KeyIs(id));
    }
  }

  /** Removing an id a second time deletes nothing more and answers nil. */
  method RemoveTwice<K(==), V>(store: InMemory<K, V>, id: K)
    returns (first: Option<Hash<K, V>>, second: Option<Hash<K, V>>)
    requires store.Valid()
    modifies store.db
    ensures store.Valid()
    ensures store.db.entries == Reject(old(store.db.entries), KeyIs(id))
    ensures store.Contents() == old(store.Contents()) - {id}
    ensures second == None
  {
    first := store.Remove(id);
    second := store.Remove(id);
  }

  /** Storing through the Hash that `list` hands out changes what the store answers. */
  method StoreThroughList<K(==), V>(store: InMemory<K, V>, id: K, data: V) returns (r: Option<V>)
    requires store.Valid()
    modifies store.db
    ensures store.Valid()
    ensures r == Some(data)
  {
    var h := store.List();
    var _ := h.Store(id, data);
    r := store.Get(id);
  }
}
