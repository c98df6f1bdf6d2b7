/**
 * The `CreateUser` operation, a client of the store it is given, and the
 * scenario its test checks.
 */
module Users {
  import opened Wrappers
  import opened Store

  /**
   * A user record, `{ name: name }`: field names (Ruby symbols) to values,
   * compared by contents as Ruby compares two Hashes.
   */
  type Record = map<string, string>

  /** The id under which `CreateUser` stores its record. */
  const UserId := 1

  function UserRecord(name: string): Record {
    map["name" := name]
  }

  class CreateUser {
    const name: string
    /** The store the operation resolved as its `db` property. */
    const db: InMemory<int, Record>

    constructor (name: string, db: InMemory<int, Record>)
      ensures this.name == name && this.db == db
    {
      this.name := name;
      this.db := db;
    }

    /**
     * `execute`: `db.add(1, { name: name })`; the store then maps id 1 to the
     * new record and nothing else changes.
     */
    method Execute() returns (r: Record)
      requires db.Valid()
      modifies db.db
      ensures db.Valid()
      ensures db.Contents() == old(db.Contents())[UserId := UserRecord(name)]
      ensures db.Get(UserId) == Some(UserRecord(name))
      ensures r == UserRecord(name)
    {
      r := db.Add(UserId, UserRecord(name));
    }
  }

  /**
   * Running `CreateUser` on a fresh in-memory store leaves exactly one record,
   * `{ name: name }` under id 1.
   */
  method CreateUserOnFreshStore(name: string) returns (count: nat, user: Option<Record>)
    ensures count == 1
    ensures user == Some(map["name" := name])
  {
    var store := new InMemory<int, Record>();
    var operation := new CreateUser(name, store);
    var _ := operation.Execute();
    count := store.Count();
    user := store.Get(1);
  }
}
