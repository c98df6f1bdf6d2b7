/**
 * The contents of a Ruby Hash as a sequence of key-value entries in insertion
 * order, with the functions that give `[]`, `[]=` and `reject!` their meaning
 * and the lemmas that relate the ordered entries to the mapping they denote.
 */
module Entries {
  import opened Wrappers

  /** No key occurs in two entries: a Hash never holds a key twice. */
  ghost predicate UniqueKeys<K, V>(s: seq<(K, V)>) {
    forall i, j | 0 <= i < j < |s| :: s[i].0 != s[j].0
  }

  /** The mapping that a sequence of entries denotes (a later entry wins). */
  function ToMap<K, V>(s: seq<(K, V)>): map<K, V> {
    if s == [] then map[]
    else ToMap(s[..|s| - 1])[s[|s| - 1].0 := s[|s| - 1].1]
  }

  /** The position of the entry for key k, if there is one. */
  function IndexOf<K(==), V>(s: seq<(K, V)>, k: K): (r: Option<nat>)
    ensures r.Some? ==> r.value < |s| && s[r.value].0 == k
    ensures r.Some? ==> forall j | 0 <= j < r.value :: s[j].0 != k
    ensures r.None? <==> forall j | 0 <= j < |s| :: s[j].0 != k
  {
    if s == [] then None
    else if s[0].0 == k then Some(0)
    else match IndexOf(s[1..], k)
      case Some(i) => Some(i + 1)
      case None => None
  }

  /** `hash[k] = v`: an existing entry is overwritten where it stands, a new key goes last. */
  function Put<K(==), V>(s: seq<(K, V)>, k: K, v: V): seq<(K, V)> {
    match IndexOf(s, k)
    case Some(i) => s[i := (k, v)]
    case None => s + [(k, v)]
  }

  /** What `reject!` keeps: the entries the block does not select, in their order. */
  function Reject<K, V>(s: seq<(K, V)>, p: (K, V) -> bool): seq<(K, V)> {
    if s == [] then []
    else Reject(s[..|s| - 1], p) + (if p(s[|s| - 1].0, s[|s| - 1].1) then [] else [s[|s| - 1]])
  }

  /** The block `{ |k, _| k == id }`, which selects the entry for id. */
  function KeyIs<K(==), V>(id: K): (K, V) -> bool {
    (k: K, v: V) => k == id
  }

  // ---------------------------------------------------------------------------
  // The mapping denoted by the entries

  lemma {:induction false} ToMapKeys<K, V>(s: seq<(K, V)>, k: K)
    ensures k in ToMap(s) <==> exists i | 0 <= i < |s| :: s[i].0 == k
  {
    if s != [] {
      var n := |s| - 1;
      var init := s[..n];
      ToMapKeys(init, k);
      if k in ToMap(init) {
        var i :| 0 <= i < |init| && init[i].0 == k;
        assert s[i].0 == k;
      }
      if exists i | 0 <= i < |s| :: s[i].0 == k {
        var i :| 0 <= i < |s| && s[i].0 == k;
        if i < n {
          assert init[i].0 == k;
        }
      }
    }
  }

  lemma {:induction false} ToMapAt<K, V>(s: seq<(K, V)>, i: nat)
    requires UniqueKeys(s)
    requires i < |s|
    ensures s[i].0 in ToMap(s) && ToMap(s)[s[i].0] == s[i].1
  {
    var n := |s| - 1;
    if i < n {
      var init := s[..n];
      assert init[i] == s[i];
      ToMapAt(init, i);
    }
  }

  /** A mapping is the one the entries denote when it has their keys and values. */
  lemma ToMapIs<K, V>(t: seq<(K, V)>, m: map<K, V>)
    requires UniqueKeys(t)
    requires forall x :: x in m <==> exists j | 0 <= j < |t| :: t[j].0 == x
    requires forall j | 0 <= j < |t| :: t[j].0 in m && m[t[j].0] == t[j].1
    ensures ToMap(t) == m
  {
    var a := ToMap(t);
    forall x
      ensures x in a <==> x in m
    {
      ToMapKeys(t, x);
    }
    forall x | x in m
      ensures a[x] == m[x]
    {
      var j :| 0 <= j < |t| && t[j].0 == x;
      ToMapAt(t, j);
    }
    SameMap(a, m);
  }

  lemma SameMap<K, V>(a: map<K, V>, m: map<K, V>)
    requires forall x :: x in a <==> x in m
    requires forall x | x in m :: a[x] == m[x]
    ensures a == m
  {
  }

  /** The number of entries is the number of distinct keys. */
  lemma {:induction false} SizeIsKeyCount<K, V>(s: seq<(K, V)>)
    requires UniqueKeys(s)
    ensures |ToMap(s)| == |s|
  {
    if s != [] {
      var n := |s| - 1;
      var init := s[..n];
      SizeIsKeyCount(init);
      ToMapKeys(init, s[n].0);
    }
  }

  // ---------------------------------------------------------------------------
  // `[]=`

  /**
   * Storing under k makes k map to v and leaves every other key alone; an
   * overwritten key keeps its position, a new key is appended, so the count
   * grows by one exactly when k is new.
   */
  lemma {:induction false} PutSpec<K, V>(s: seq<(K, V)>, k: K, v: V)
    requires UniqueKeys(s)
    ensures UniqueKeys(Put(s, k, v))
    ensures ToMap(Put(s, k, v)) == ToMap(s)[k := v]
    ensures |Put(s, k, v)| == if k in ToMap(s) then |s| else |s| + 1
    ensures forall j | 0 <= j < |s| :: Put(s, k, v)[j].0 == s[j].0
    ensures k !in ToMap(s) ==> Put(s, k, v)[|s|] == (k, v)
  {
    ToMapKeys(s, k);
    var t := Put(s, k, v);
    match IndexOf(s, k)
    case Some(i) =>
      var m := ToMap(s)[k := v];
      forall x
        ensures x in m <==> exists j | 0 <= j < |t| :: t[j].0 == x
      {
        ToMapKeys(s, x);
        if x == k {
          assert t[i].0 == x;
        } else if x in m {
          var j :| 0 <= j < |s| && s[j].0 == x;
          assert t[j].0 == x;
        }
        if exists j | 0 <= j < |t| :: t[j].0 == x {
          var j :| 0 <= j < |t| && t[j].0 == x;
          if j != i {
            assert s[j].0 == x;
          }
        }
      }
      forall j | 0 <= j < |t|
        ensures t[j].0 in m && m[t[j].0] == t[j].1
      {
        if j != i {
          ToMapAt(s, j);
        }
      }
      ToMapIs(t, m);
    case None =>
  }

  // ---------------------------------------------------------------------------
  // `reject!`

  lemma {:induction false} RejectNothing<K, V>(s: seq<(K, V)>, p: (K, V) -> bool)
    requires forall j | 0 <= j < |s| :: !p(s[j].0, s[j].1)
    ensures Reject(s, p) == s
  {
    if s != [] {
      var n := |s| - 1;
      RejectNothing(s[..n], p);
      assert s[..n] + [s[n]] == s;
    }
  }

  /** Every entry `reject!` keeps was already there. */
  lemma {:induction false} RejectKeepsOld<K, V>(s: seq<(K, V)>, p: (K, V) -> bool, e: (K, V))
    requires e in Reject(s, p)
    ensures exists j | 0 <= j < |s| :: s[j] == e
  {
    var n := |s| - 1;
    var init := s[..n];
    if e in Reject(init, p) {
      RejectKeepsOld(init, p, e);
      var j :| 0 <= j < |init| && init[j] == e;
      assert s[j] == e;
    } else {
      assert s[n] == e;
    }
  }

  /** `reject!` never makes a key occur twice. */
  lemma {:induction false} RejectUnique<K, V>(s: seq<(K, V)>, p: (K, V) -> bool)
    requires UniqueKeys(s)
    ensures UniqueKeys(Reject(s, p))
  {
    if s != [] {
      var n := |s| - 1;
      var init := s[..n];
      RejectUnique(init, p);
      var r := Reject(init, p);
      forall e | e in r
        ensures e.0 != s[n].0
      {
        RejectKeepsOld(init, p, e);
      }
      if !p(s[n].0, s[n].1) {
        var t := r + [s[n]];
        forall i, j | 0 <= i < j < |t|
          ensures t[i].0 != t[j].0
        {
          if j == |r| {
            assert t[i] in r;
          }
        }
      }
    }
  }

  lemma {:induction false} RejectKeyMap<K, V>(s: seq<(K, V)>, id: K)
    ensures ToMap(Reject(s, KeyIs(id))) == ToMap(s) - {id}
  {
    if s != [] {
      var n := |s| - 1;
      var kept := Reject(s[..n], KeyIs(id));
      RejectKeyMap(s[..n], id);
      var m := ToMap(s[..n]);
      if s[n].0 == id {
        assert Reject(s, KeyIs(id)) == kept;
        SameMap(m - {id}, m[id := s[n].1] - {id});
      } else {
        var t := kept + [s[n]];
        assert Reject(s, KeyIs(id)) == t;
        assert t[..|t| - 1] == kept;
        SameMap((m - {id})[s[n].0 := s[n].1], m[s[n].0 := s[n].1] - {id});
      }
    }
  }

  /**
   * `reject!` with the block `{ |k, _| k == id }` removes id from the mapping
   * and leaves every other key alone; the count drops by one exactly when id
   * was present.
   */
  lemma RejectKey<K, V>(s: seq<(K, V)>, id: K)
    requires UniqueKeys(s)
    ensures UniqueKeys(Reject(s, KeyIs(id)))
    ensures ToMap(Reject(s, KeyIs(id))) == ToMap(s) - {id}
    ensures |Reject(s, KeyIs(id))| == if id in ToMap(s) then |s| - 1 else |s|
  {
    RejectUnique(s, KeyIs(id));
    RejectKeyMap(s, id);
    SizeIsKeyCount(s);
    SizeIsKeyCount(Reject(s, KeyIs(id)));
  }

  /** `reject!` of a key that is absent changes nothing. */
  lemma RejectAbsent<K, V>(s: seq<(K, V)>, id: K)
    requires id !in ToMap(s)
    ensures Reject(s, KeyIs(id)) == s
  {
    ToMapKeys(s, id);
    RejectNothing(s, KeyIs(id));
  }

  /** Removing a key twice leaves the same entries as removing it once. */
  lemma RejectKeyIdempotent<K, V>(s: seq<(K, V)>, id: K)
    requires UniqueKeys(s)
    ensures Reject(Reject(s, KeyIs(id)), KeyIs(id)) == Reject(s, KeyIs(id))
  {
    RejectKey(s, id);
    RejectAbsent(Reject(s, KeyIs(id)), id);
  }
}
