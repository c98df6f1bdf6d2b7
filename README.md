# In-memory key-value store of the dependency-injection example

This project models the in-memory store `InMemory` from
`ruby/active-operation-dependency-injection/example.rb` and the `CreateUser` operation that uses it.
The store is the test double that replaces the JSON-file store in that example's test.

`InMemory` owns one Ruby Hash (`@db`) and changes it in place:

- `count` and `get` read it.
- `list` hands out the Hash object itself.
- `add` stores with `[]=`.
- `remove` deletes with `reject!`.

The model keeps that shape:

- `Hashes.Hash` is a class for the part of Ruby's Hash the store uses. Its field `entries` is a
  sequence of key-value pairs in insertion order, with no key twice (`Valid`).
- `Entries.ToMap` gives the key-to-value mapping that the entries stand for. Every operation is
  specified against that mapping and against the entry order.
- `Entries.Put` gives the meaning of `[]=`. An existing key is overwritten at its position. A new
  key goes last.
- `Entries.Reject` gives the meaning of `reject!`. It keeps the entries the block does not select,
  in their order. `Hash.RejectIf` computes it with a loop, as `reject!` walks the Hash.
  `Entries.KeyIs(id)` is the block `{ |k, _| k == id }` that `remove` passes.
- `Store.InMemory` holds the Hash in a `const` field. `List` returns that same object, so a caller
  that changes the listed Hash changes the store (`Store.StoreThroughList`).
- `Users.CreateUser` is the operation. It is given the store that it would resolve as its `db`
  property. `Users.CreateUserOnFreshStore` is the scenario of the test `test_logging`.

Three details of the code as written:

- `list` returns the live Hash, not a snapshot.
- `add` answers the stored data, because `[]=` answers the assigned value.
- `remove` answers the Hash when something was deleted and nil otherwise, because that is what
  `reject!` answers. Nil is `Wrappers.None`.

## Model

| member | source | states |
|---|---|---|
| Hashes.Hash.constructor | ruby/active-operation-dependency-injection/example.rb:53 | `{}` makes a Hash with no entries and the empty mapping |
| Hashes.Hash.Count | ruby/active-operation-dependency-injection/example.rb:56-58 | the count is the number of distinct keys in the mapping |
| Hashes.Hash.Get | ruby/active-operation-dependency-injection/example.rb:64-66 | `[]` answers a value exactly when the key is present, and that value is the one the mapping holds for the key |
| Hashes.Hash.Store | ruby/active-operation-dependency-injection/example.rb:68-70 | `[]=` keeps keys unique, the new mapping is the old one with only the key rebound, the entries are `Put` of the old ones, and the answer is the assigned value |
| Hashes.Hash.RejectIf | ruby/active-operation-dependency-injection/example.rb:72-74 | the loop leaves exactly `Reject` of the old entries (those the block does not select, in order), keeps keys unique, and answers the Hash itself exactly when the entry count dropped, nil otherwise |
| Entries.IndexOf | ruby/active-operation-dependency-injection/example.rb:64-70 | finds the first and only position that holds the key, and answers none exactly when no entry has the key |
| Entries.SizeIsKeyCount | ruby/active-operation-dependency-injection/example.rb:56-58 | with unique keys, the number of entries equals the number of keys in the mapping |
| Entries.PutSpec | ruby/active-operation-dependency-injection/example.rb:68-70 | storing keeps keys unique and rebinds only the given key; the count grows by one exactly when the key was new; existing keys keep their positions; a new key is last |
| Entries.RejectKeepsOld | ruby/active-operation-dependency-injection/example.rb:73 | every entry that `reject!` keeps was already in the Hash |
| Entries.RejectUnique | ruby/active-operation-dependency-injection/example.rb:73 | `reject!` with any block keeps keys unique |
| Entries.RejectKeyMap | ruby/active-operation-dependency-injection/example.rb:72-74 | rejecting with the block that selects key `id` removes exactly `id` from the mapping |
| Entries.RejectKey | ruby/active-operation-dependency-injection/example.rb:72-74 | with unique keys, removing `id` keeps keys unique, removes only `id`, and drops the count by one exactly when `id` was present |
| Entries.RejectAbsent | ruby/active-operation-dependency-injection/example.rb:73 | rejecting an absent key leaves the entries exactly as they were |
| Entries.RejectKeyIdempotent | ruby/active-operation-dependency-injection/example.rb:72-74 | removing a key twice leaves the same entries as removing it once |
| Store.InMemory.constructor | ruby/active-operation-dependency-injection/example.rb:52-54 | a new store owns a fresh, empty Hash; its count is 0 and `get` of every id is nil |
| Store.InMemory.Count | ruby/active-operation-dependency-injection/example.rb:56-58 | `count` is the number of distinct ids stored |
| Store.InMemory.List | ruby/active-operation-dependency-injection/example.rb:60-62 | `list` answers the store's own Hash object (an alias, not a copy), whose contents are exactly the mapping `count` and `get` read |
| Store.InMemory.Get | ruby/active-operation-dependency-injection/example.rb:64-66 | `get(id)` is the record stored under `id`, or nil when there is none |
| Store.InMemory.Add | ruby/active-operation-dependency-injection/example.rb:68-70 | after `add(id, data)`, `get(id)` is `data`, every other id keeps its record, the count grows by one exactly when `id` was new, the entries are `Put` of the old ones, and the answer is `data` |
| Store.InMemory.Remove | ruby/active-operation-dependency-injection/example.rb:72-74 | after `remove(id)`, `get(id)` is nil and every other id keeps its record; the count drops by one exactly when `id` was present; the answer is the Hash then, and otherwise nil with the entries unchanged |
| Store.RemoveTwice | ruby/active-operation-dependency-injection/example.rb:72-74 | two `remove(id)` calls leave the state that one leaves, and the second answers nil |
| Store.StoreThroughList | ruby/active-operation-dependency-injection/example.rb:60-62 | storing into the Hash that `list` answers is seen by the store's `get` |
| Users.CreateUser.constructor | ruby/active-operation-dependency-injection/example.rb:77-79 | the operation holds the given name and the store it uses as `db` |
| Users.CreateUser.Execute | ruby/active-operation-dependency-injection/example.rb:81-83 | `execute` binds id 1 to `{ name: name }`, changes no other id, and answers that record |
| Users.CreateUserOnFreshStore | ruby/active-operation-dependency-injection/example.rb:91-97 | running the operation on a fresh store leaves count 1 and `get(1) == { name: name }` (the test uses the name "John") |

## Left out

- `DB` (example.rb:19-49) is not modelled. It is file I/O with JSON parsing and generation. As written, `update` (example.rb:43) calls its block with `yield` and no argument, so `db` is nil inside the blocks of `add` and `remove` (example.rb:33, 37). `nil.merge` and `nil.reject` then raise NoMethodError before `File.write` runs, so `DB#add` and `DB#remove` raise and write nothing. Its JSON keys are strings, so `get(1)` would miss.
- `Container`, `register`, `enable_stubs!`, `stub` and `unstub` (example.rb:11-17, 88, 100-102) are behaviour of the dry-container library, which is not part of this model. `Users.CreateUser` takes the resolved store as a constructor argument instead.
- `Operation.resolve`, the lazy lambda default and the `property!` declarations (example.rb:7-9, 78-79) depend on the active_operation library. The `accepts: String` check is replaced by the parameter type `string`. The `perform` lifecycle around `execute` is not modelled.
- The minitest harness and the `ensure` cleanup in `with_stubbed_db` (example.rb:86-103) are test plumbing. The test's assertions are stated as `Users.CreateUserOnFreshStore`, for any name.
- Hashes.Hash.Get: Ruby answers nil both for a missing key and for a key stored with the value nil. The model answers `Some` of the stored value, so it tells those two cases apart.
- Records are values (`Users.Record` is a map from field name to string, and stores are generic in the value type). Ruby stores a reference to the caller's Hash, so a caller that mutates `data` after `add` would change the stored record. That sharing is not modelled.
- Ruby's Hash compares keys with `hash` and `eql?` and copies and freezes String keys on `[]=`. The model compares keys with Dafny equality.
- Hashes.Hash.RejectIf: the block is a pure function of the key and the value. A block with side effects, or one that changes the Hash while `reject!` runs, is not modelled.
- Store.InMemory.Remove: the block of `remove` compares keys with `==` (example.rb:73), while `[]` and `[]=` use `eql?` (example.rb:65, 69). The model uses one equality for both. In Ruby, `add(1, a); add(1.0, b); remove(1)` deletes both keys. The claim that the count drops by exactly one holds only for ids where `==` and `eql?` agree.
- Entries.RejectKey: the count drops by exactly one only when one equality decides both storage and removal; for Ruby ids where `==` and `eql?` disagree, `reject!` may delete several entries.
