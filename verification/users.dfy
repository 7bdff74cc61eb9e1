/** The users collection: the duplicate check, registration and login.
    Password hashing is outside the model: registration receives the hash
    the caller computed, and login receives the comparison as `compare(plain, hash)`.
 */
module Users {
  import opened Seqs
  import opened Records

  function Clashes(email: string, mobile: string): User -> bool
  {
    (u: User) => u.email == email || u.mobile == mobile
  }

  function HasEmail(email: string): User -> bool
  {
    (u: User) => u.email == email
  }

  /** `i` is the user the login handler picks for `email`: the first with that email. */
  ghost predicate FirstWithEmail(users: seq<User>, email: string, i: int)
  {
    IsFirst(users, HasEmail(email), i)
  }

  /** The collection invariant: no two users share an email, and no two share a mobile number. */
  ghost predicate UniqueKeys(users: seq<User>)
  {
    forall i, j :: 0 <= i < j < |users| ==> users[i].email != users[j].email && users[i].mobile != users[j].mobile
  }

  /** The duplicate check run before registration. */
  function IsDuplicate(users: seq<User>, email: string, mobile: string): (r: bool)
    ensures r <==> exists j :: 0 <= j < |users| && (users[j].email == email || users[j].mobile == mobile)
  {
    Any(users, Clashes(email, mobile))
  }

  /** Registration: refused when the email or the mobile is taken, otherwise one new user is appended. */
  function Register(users: seq<User>, freshId: string, username: string, email: string,
                    hashedPassword: string, mobile: string): (r: Step<(), User>)
    ensures r.result.Err? <==> exists j :: 0 <= j < |users| && (users[j].email == email || users[j].mobile == mobile)
    ensures r.result.Err? ==> r.result.error == DuplicateUser && r.records == users
    ensures r.result.Ok? ==>
      && |r.records| == |users| + 1
      && r.records[..|users|] == users
      && var u := r.records[|users|];
      && u.id == freshId && u.username == username && u.email == email && u.mobile == mobile
      && u.password == hashedPassword
      && u.role == DefaultRole && u.followers == [] && u.following == []
  {
    if IsDuplicate(users, email, mobile) then
      Step(Err(DuplicateUser), users)
    else
      var user := User(freshId, username, email, hashedPassword, mobile, DefaultRole, [], []);
      assert (users + [user])[..|users|] == users;
      Step(Ok(()), users + [user])
  }

  /** Login: judged only on the first user with the email; yields that user's role. */
  function Login(users: seq<User>, email: string, password: string,
                 compare: (string, string) -> bool): (r: Result<string>)
    ensures r.Err? ==> r.error == InvalidCredentials
    ensures (forall j :: 0 <= j < |users| ==> users[j].email != email) ==> r.Err?
    ensures forall i :: FirstWithEmail(users, email, i) ==>
      && (r.Ok? <==> compare(password, users[i].password))
      && (r.Ok? ==> r.value == users[i].role)
  {
    match FirstIndex(users, HasEmail(email))
    case None => Err(InvalidCredentials)
    case Some(i) =>
      if compare(password, users[i].password) then Ok(users[i].role) else Err(InvalidCredentials)
  }

  /** Registration keeps emails and mobile numbers unique across the collection. */
  lemma RegisterKeepsKeysUnique(users: seq<User>, freshId: string, username: string, email: string,
                                hashedPassword: string, mobile: string)
    requires UniqueKeys(users)
    ensures UniqueKeys(Register(users, freshId, username, email, hashedPassword, mobile).records)
  {
    var r := Register(users, freshId, username, email, hashedPassword, mobile);
    if r.result.Ok? {
      var s := r.records;
      forall i, j | 0 <= i < j < |s|
        ensures s[i].email != s[j].email && s[i].mobile != s[j].mobile
      {
        assert s[i] == users[i] by { assert s[..|users|][i] == s[i]; }
        if j < |users| {
          assert s[j] == users[j] by { assert s[..|users|][j] == s[j]; }
        }
      }
    }
  }

  /** A second registration with an email already registered is refused and adds nothing. */
  lemma RegisterTwiceSameEmail(users: seq<User>, id1: string, name1: string, email: string,
                               hash1: string, mobile1: string,
                               id2: string, name2: string, hash2: string, mobile2: string)
    requires Register(users, id1, name1, email, hash1, mobile1).result.Ok?
    ensures var after := Register(users, id1, name1, email, hash1, mobile1).records;
            Register(after, id2, name2, email, hash2, mobile2) == Step(Err(DuplicateUser), after)
  {
    var after := Register(users, id1, name1, email, hash1, mobile1).records;
    assert after[|users|].email == email;
  }

  /** Under the invariant, the first user with an email is the only one, so login judges exactly that user. */
  lemma LoginJudgesTheOwner(users: seq<User>, k: int, password: string, compare: (string, string) -> bool)
    requires UniqueKeys(users)
    requires 0 <= k < |users|
    ensures Login(users, users[k].email, password, compare) ==
      (if compare(password, users[k].password) then Ok(users[k].role) else Err(InvalidCredentials))
  {
    assert FirstWithEmail(users, users[k].email, k);
  }

  /** A user who has just registered can log in with the password whose hash was stored, and receives role "user". */
  lemma RegisterThenLogin(users: seq<User>, freshId: string, username: string, email: string,
                          password: string, hashedPassword: string, mobile: string,
                          compare: (string, string) -> bool)
    requires Register(users, freshId, username, email, hashedPassword, mobile).result.Ok?
    requires compare(password, hashedPassword)
    ensures Login(Register(users, freshId, username, email, hashedPassword, mobile).records,
                  email, password, compare) == Ok(DefaultRole)
  {
    var s := Register(users, freshId, username, email, hashedPassword, mobile).records;
    forall j | 0 <= j < |users|
      ensures s[j].email != email
    {
      assert s[j] == s[..|users|][j];
    }
    assert FirstWithEmail(s, email, |users|);
  }
}
