/**
 * The part of Ruby's Hash that the in-memory store relies on: a mutable
 * object holding entries in insertion order, with `count`, `[]`, `[]=` and
 * `reject!`.
 */
module Hashes {
  import opened Wrappers
  import opened Entries

  class Hash<K(==), V> {
    var entries: seq<(K, V)>

    /** A Hash never holds the same key twice. */
    ghost predicate Valid()
      reads this
    {
      UniqueKeys(entries)
    }

    /** The key-to-value mapping the Hash holds. */
    function Contents(): map<K, V>
      reads this
    {
      ToMap(entries)
    }

    /** `{}` */
    constructor ()
      ensures Valid() && entries == [] && Contents() == map[]
    {
      entries := [];
    }

    /** `hash.count`: the number of distinct keys. */
    function Count(): (n: nat)
      reads this
      requires Valid()
      ensures n == |Contents()|
    {
      SizeIsKeyCount(entries);
      |entries|
    }

    /** `hash[k]`: the value stored under k, or nil. */
    function Get(k: K): (r: Option<V>)
      reads this
      requires Valid()
      ensures r.Some? <==> k in Contents()
      ensures r.Some? ==> r.value == Contents()[k]
    {
      ToMapKeys(entries, k);
      match IndexOf(entries, k)
      case Some(i) => (ToMapAt(entries, i); Some(entries[i].1))
      case None => None
    }

    /**
     * `hash[k] = v`: k maps to v afterwards and every other key keeps its
     * value and position; answers v.
     */
    method Store(k: K, v: V) returns (r: V)
      requires Valid()
      modifies this
      ensures Valid()
      ensures entries == Put(old(entries), k, v)
      ensures Contents() == old(Contents())[k := v]
      ensures r == v
    {
      PutSpec(entries, k, v);
      entries := Put(entries, k, v);
      r := v;
    }

    /**
     * `hash.reject! { |k, v| p(k, v) }`: deletes in place every entry the
     * block selects, keeping the others in order; answers the Hash itself
     * when something was deleted and nil otherwise.
     */
    method RejectIf(p: (K, V) -> bool) returns (r: Option<Hash<K, V>>)
      requires Valid()
      modifies this
      ensures Valid()
      ensures entries == Reject(old(entries), p)
      ensures r == if |entries| < |old(entries)| then Some(this) else None
    {
      var all := entries;
      var kept: seq<(K, V)> := [];
      var i := 0;
      while i < |all|
        invariant 0 <= i <= |all|
        invariant kept == Reject(all[..i], p)
      {
        var e := all[i];
        if !p(e.0, e.1) {
          kept := kept + [e];
        }
        assert all[..i + 1][..i] == all[..i];
        i := i + 1;
      }
      assert all[..i] == all;
      RejectUnique(all, p);
      entries := kept;
      r := if |kept| < |all| then Some(this) else None;
    }
  }
}
