/** The self-registration decisions of src/routes/user-routes.js: the
    ordered checks of `validateUser` and the `register` handler that calls
    `createUser` only after they all pass. A request field that is not a
    string is `None`. */
module UserRoutes {
  import opened Wrappers
  import opened Db
  import opened Web
  import Users
  import Rows

  const NameMsg := "Nafn þarf að vera amk 2 stafir"
  const UsernameMsg := "Notendanafn verður að vera amk 2 stafir"
  const LookupFailedMsg := "Gat ekki athugað notendanafn"
  const UsernameTakenMsg := "Notendanafn er þegar skráð"
  const PasswordMsg := "Lykilorð verður að vera amk 6 stafir"

  /** `typeof v === 'string' && v.length >= n`. */
  predicate IsStringOfLength(v: Option<string>, n: nat) {
    v.Some? && |v.value| >= n
  }

  /** `validateUser(name, username, password)`: the first failing check's
      message, or `null` when all pass. The username lookup is made only
      once name and username are acceptable. */
  function ValidateUser(users: seq<User>, name: Option<string>, username: Option<string>, password: Option<string>,
                        q: QueryStatus): (r: Option<string>)
    ensures !IsStringOfLength(name, 2) ==> r == Some(NameMsg)
    ensures IsStringOfLength(name, 2) && !IsStringOfLength(username, 2) ==> r == Some(UsernameMsg)
    ensures IsStringOfLength(name, 2) && IsStringOfLength(username, 2) && q == Failed ==> r == Some(LookupFailedMsg)
    ensures IsStringOfLength(name, 2) && IsStringOfLength(username, 2) && q == Ran ==>
      (Rows.ExactlyOne(users, Users.HasUsername(username.value)) ==> r == Some(UsernameTakenMsg))
    ensures IsStringOfLength(name, 2) && IsStringOfLength(username, 2) && q == Ran &&
            !Rows.ExactlyOne(users, Users.HasUsername(username.value)) && !IsStringOfLength(password, 6) ==>
      r == Some(PasswordMsg)
    ensures r == Some(PasswordMsg) ==>
      && IsStringOfLength(name, 2) && IsStringOfLength(username, 2)
      && Users.FindByUsername(users, username.value, q) == Users.NotFound
      && !IsStringOfLength(password, 6)
    ensures r.None? <==>
      && IsStringOfLength(name, 2) && IsStringOfLength(username, 2) && IsStringOfLength(password, 6)
      && q == Ran && !Rows.ExactlyOne(users, Users.HasUsername(username.value))
    ensures r.Some? ==> r.value != ""
  {
    if !IsStringOfLength(name, 2) then Some(NameMsg)
    else if !IsStringOfLength(username, 2) then Some(UsernameMsg)
    else match Users.FindByUsername(users, username.value, q)
      case LookupFailed => Some(LookupFailedMsg)
      case Found(_) => Some(UsernameTakenMsg)
      case NotFound => if !IsStringOfLength(password, 6) then Some(PasswordMsg) else None
  }

  /** `register` (POST /register): send the validation message, or create
      the user and go on to sign in. The result of `createUser` is not
      looked at. */
  method Register(db: Database, name: Option<string>, username: Option<string>, password: Option<string>,
                  xss: string -> string, hash: string -> string, qLookup: QueryStatus, qInsert: QueryStatus)
    returns (r: Response)
    requires db.Valid()
    modifies db`users, db`nextUserId
    ensures db.Valid()
    ensures ValidateUser(old(db.users), name, username, password, qLookup).Some? ==>
      r == Sent(ValidateUser(old(db.users), name, username, password, qLookup).value) && db.users == old(db.users)
    ensures ValidateUser(old(db.users), name, username, password, qLookup).None? ==>
      && r == Next
      && name.Some? && username.Some? && password.Some?
      && db.users == if qInsert == Ran
                     then old(db.users) + [User(old(db.nextUserId), xss(name.value), xss(username.value), hash(password.value))]
                     else old(db.users)
  {
    var validationMessage := ValidateUser(db.users, name, username, password, qLookup);
    if validationMessage.Some? {
      return Sent(validationMessage.value);
    }
    var _ := Users.CreateUser(db, name.value, username.value, password.value, xss, hash, qInsert);
    r := Next;
  }
}
