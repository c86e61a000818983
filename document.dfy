/**
 * The makeshift database: one JSON file, `data/users.json`, holding a `users`
 * array and, once the employees route has written it, an `employees` array.
 * Every route handler loads the whole file, changes one array in memory and
 * writes the whole file back; here the object's fields are the file's
 * content and `writes` counts whole-file writes.
 */
module Document {
  import opened Records

  /** Writes made by `ensureDataFile`: one when it has to create the file. */
  function CreationWrites(wasOnDisk: bool): nat
  {
    if wasOnDisk then 0 else 1
  }

  class Database {
    /** Whether the file is on disk. */
    var onDisk: bool
    var users: seq<Record>
    /** Whether the stored object has an `employees` property at all. */
    var hasEmployees: bool
    /** The stored employees; a missing property reads as the empty array. */
    var employees: seq<Record>
    /** Number of whole-file writes so far. */
    ghost var writes: nat

    /** A file that is not there has no content; a missing array reads as empty. */
    predicate Valid()
      reads this
    {
      && (!onDisk ==> users == [] && !hasEmployees)
      && (!hasEmployees ==> employees == [])
    }

    /** No file on disk yet. */
    constructor Absent()
      ensures Valid() && !onDisk && writes == 0
    {
      onDisk, users, hasEmployees, employees := false, [], false, [];
      writes := 0;
    }

    /** A file already on disk with the given arrays (`None`: no `employees` property). */
    constructor Holding(storedUsers: seq<Record>, storedEmployees: Option<seq<Record>>)
      ensures Valid() && onDisk && users == storedUsers && writes == 0
      ensures hasEmployees == storedEmployees.Some?
      ensures employees == if storedEmployees.Some? then storedEmployees.value else []
    {
      onDisk, users := true, storedUsers;
      hasEmployees := storedEmployees.Some?;
      employees := if storedEmployees.Some? then storedEmployees.value else [];
      writes := 0;
    }

    /** `ensureDataFile` of the auth route: create `{ users: [] }` when the file is absent. */
    method EnsureForAuth()
      requires Valid()
      modifies this
      ensures Valid() && onDisk
      ensures users == old(users) && hasEmployees == old(hasEmployees) && employees == old(employees)
      ensures writes == old(writes) + CreationWrites(old(onDisk))
    {
      if !onDisk {
        onDisk := true;
        writes := writes + 1;
      }
    }

    /** `ensureDataFile` of the employees route: create `{ users: [], employees: [] }` when absent. */
    method EnsureForEmployees()
      requires Valid()
      modifies this
      ensures Valid() && onDisk
      ensures users == old(users) && employees == old(employees)
      ensures hasEmployees == (old(hasEmployees) || !old(onDisk))
      ensures writes == old(writes) + CreationWrites(old(onDisk))
    {
      if !onDisk {
        onDisk, hasEmployees := true, true;
        writes := writes + 1;
      }
    }
  }
}
