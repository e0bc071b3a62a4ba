/**
 The users file, reduced to its content. Reading a file that does not
 exist yields no users; writing replaces the whole collection.
 */
module UserStore {
  import opened Users

  /** The users file: not created yet, or holding a collection. */
  datatype UsersFile = Missing | Stored(users: seq<UserRecord>)

  /** `readUsers`: a missing file reads as the empty collection. */
  function ReadUsers(file: UsersFile): (users: seq<UserRecord>)
    ensures file == Missing ==> users == []
  {
    match file
    case Missing => []
    case Stored(users) => users
  }

  /** `writeUsers`: the file afterwards holds exactly `users`, so that
      the next read gives them back. */
  function WriteUsers(users: seq<UserRecord>): (file: UsersFile)
    ensures ReadUsers(file) == users
    ensures file != Missing
  {
    Stored(users)
  }

  /** An existing file is what writing its content back would produce:
      reading loses nothing. */
  lemma ReadThenWrite(file: UsersFile)
    requires file != Missing
    ensures WriteUsers(ReadUsers(file)) == file
  {
  }
}
