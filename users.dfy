/** The user repository of src/lib/users.js over the `users` and
    `registrations` tables of a `Db.Database`. `xss` and the password hash
    are functions this model does not interpret. */
module Users {
  import opened Wrappers
  import opened Db
  import Rows

  /** What `findByUsername` returns: the row, `false` (zero or several
      rows matched), or `null` (the lookup threw, because `query` returned
      `null` and `result.rowCount` was read from it). */
  datatype UserLookup = Found(user: User) | NotFound | LookupFailed

  function HasUsername(username: string): User -> bool { (u: User) => u.username == username }
  function HasUserId(id: nat): User -> bool { (u: User) => u.id == id }

  /** `findByUsername(username)`. */
  function FindByUsername(users: seq<User>, username: string, q: QueryStatus): (r: UserLookup)
    ensures r.LookupFailed? <==> q == Failed
    ensures r.Found? <==> q == Ran && Rows.ExactlyOne(users, HasUsername(username))
    ensures r.Found? ==> r.user in users && r.user.username == username
    ensures r.NotFound? ==> q == Ran && !Rows.ExactlyOne(users, HasUsername(username))
  {
    if q == Failed then LookupFailed
    else match SelectOne(users, HasUsername(username), q)
      case Some(u) => Found(u)
      case None => NotFound
  }

  /** `findById(id)`: the row when exactly one user has the id; `null` for
      zero or several rows and for a failed query alike. */
  function FindById(users: seq<User>, id: nat, q: QueryStatus): (r: Option<User>)
    ensures r.Some? <==> q == Ran && Rows.ExactlyOne(users, HasUserId(id))
    ensures r.Some? ==> r.value in users && r.value.id == id
  {
    SelectOne(users, HasUserId(id), q)
  }

  /** `userInEvent(name, event)`: whether a registration has both that name
      and that event; reading the rows of a `null` result throws. */
  function UserInEvent(registrations: seq<Registration>, name: string, event: nat, q: QueryStatus): (r: Outcome<bool>)
    ensures r.Done? <==> q == Ran
    ensures r.Done? ==> (r.value <==> exists x :: x in registrations && x.name == name && x.event == event)
  {
    var matches := Rows.Filter(registrations, NameAndEvent(name, event));
    assert matches != [] ==> matches[0] in matches;
    if q == Ran then Done(matches != []) else Threw
  }

  /** `createUser(name, username, password)`: store `xss(name)`,
      `xss(username)` and the hash of the password; return the inserted row,
      or `false` (here `None`) when the query failed. */
  method CreateUser(db: Database, name: string, username: string, password: string,
                    xss: string -> string, hash: string -> string, q: QueryStatus)
    returns (created: Option<User>)
    requires db.Valid()
    modifies db`users, db`nextUserId
    ensures db.Valid()
    ensures q == Failed ==> created == None && db.users == old(db.users) && db.nextUserId == old(db.nextUserId)
    ensures q == Ran ==>
      && created == Some(User(old(db.nextUserId), xss(name), xss(username), hash(password)))
      && db.users == old(db.users) + [created.value]
      && db.nextUserId == old(db.nextUserId) + 1
  {
    var hashedPassword := hash(password);
    if q == Failed {
      return None;
    }
    var row := User(db.nextUserId, xss(name), xss(username), hashedPassword);
    db.users := db.users + [row];
    db.nextUserId := db.nextUserId + 1;
    created := Some(row);
  }
}
