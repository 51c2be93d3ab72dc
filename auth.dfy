/** Account rules of the authentication endpoints: the login decision, the
    defaults a self-registered account gets, and the profile update. Token
    signing and password hashing are outside the model; the password check
    is a parameter. */
module Auth {
  import opened Collections
  import opened Records

  /** The answers of `authUser`. */
  datatype LoginResult =
    | InvalidCredentials    // 401
    | MentorNotApproved     // 403
    | Deactivated           // 403
    | LoggedIn(user: User)  // 200 with a token

  /** `authUser`: the user found by email must exist and the password must
      match; then an unapproved mentor is refused before a deactivated
      account is. */
  function Login(users: seq<User>, email: string, password: string,
                 matchPassword: (User, string) -> bool): (r: LoginResult)
    ensures r == InvalidCredentials <==>
      FindByEmail(users, email).None? || !matchPassword(FindByEmail(users, email).value, password)
    ensures r == MentorNotApproved <==>
      && FindByEmail(users, email).Some?
      && var u := FindByEmail(users, email).value;
         matchPassword(u, password) && u.role == Mentor && !u.isApproved
    ensures r == Deactivated <==>
      && FindByEmail(users, email).Some?
      && var u := FindByEmail(users, email).value;
         matchPassword(u, password) && !(u.role == Mentor && !u.isApproved) && !IsActive(u)
    ensures r.LoggedIn? ==>
      && Some(r.user) == FindByEmail(users, email)
      && IsActive(r.user)
      && (r.user.role == Mentor ==> r.user.isApproved)
  {
    var found := FindByEmail(users, email);
    if found.None? || !matchPassword(found.value, password) then InvalidCredentials
    else if found.value.role == Mentor && !found.value.isApproved then MentorNotApproved
    else if found.value.isActive == Some(false) then Deactivated
    else LoggedIn(found.value)
  }

  /** A deactivated mentor who is also unapproved hears about the approval
      first; an account whose `isActive` was never set can log in. */
  lemma LoginCheckOrder(users: seq<User>, email: string, password: string,
                        matchPassword: (User, string) -> bool)
    requires FindByEmail(users, email).Some?
    requires matchPassword(FindByEmail(users, email).value, password)
    ensures var u := FindByEmail(users, email).value;
      && (u.role == Mentor && !u.isApproved ==> Login(users, email, password, matchPassword) == MentorNotApproved)
      && (u.isActive.None? && (u.role == Mentor ==> u.isApproved) ==>
            Login(users, email, password, matchPassword) == LoggedIn(u))
  {
  }

  /** The account `registerUser` creates: the role defaults to student, and
      only a mentor starts unapproved. */
  function NewAccount(id: Id, name: string, email: string, password: string, role: Option<Role>): (u: User)
    ensures u.id == id && u.name == name && u.email == email && u.password == password
    ensures role.None? ==> u.role == Student
    ensures role.Some? ==> u.role == role.value
    ensures !u.isApproved <==> u.role == Mentor
    ensures u.isActive.None?
  {
    User(id, name, email, password, if role.Some? then role.value else Student,
         role != Some(Mentor), None)
  }

  /** A registration answer carries a token unless the account is a mentor's. */
  predicate RegistrationIssuesToken(u: User) {
    u.role != Mentor
  }

  /** The user `updateUserProfile` saves: name and email take truthy new
      values, the password changes only when one is supplied, and nothing
      else changes. */
  function UpdatedProfile(u: User, name: string, email: string, password: string): (r: User)
    ensures r.id == u.id && r.role == u.role && r.isApproved == u.isApproved && r.isActive == u.isActive
    ensures Truthy(name) ==> r.name == name
    ensures !Truthy(name) ==> r.name == u.name
    ensures Truthy(email) ==> r.email == email
    ensures !Truthy(email) ==> r.email == u.email
    ensures r.password == (if Truthy(password) then password else u.password)
    ensures !Truthy(name) && !Truthy(email) && !Truthy(password) ==> r == u
  {
    u.(name := Fallback(name, u.name), email := Fallback(email, u.email),
       password := if Truthy(password) then password else u.password)
  }

  /** Finding by email in a list extended at the end: an email no earlier
      user has finds the new user. */
  lemma {:induction false} FindAppended(users: seq<User>, u: User)
    requires FindByEmail(users, u.email).None?
    ensures FindByEmail(users + [u], u.email) == Some(u)
  {
    if |users| > 0 {
      assert (users + [u])[1..] == users[1..] + [u];
      FindAppended(users[1..], u);
    } else {
      assert users + [u] == [u];
    }
  }

  /** A freshly registered account with the right password can log in
      exactly when its registration answer carried a token, i.e. unless it
      is a mentor's. */
  lemma RegistrationMatchesLogin(users: seq<User>, id: Id, name: string, email: string, password: string,
                                 role: Option<Role>, matchPassword: (User, string) -> bool)
    requires FindByEmail(users, email).None?
    requires matchPassword(NewAccount(id, name, email, password, role), password)
    ensures var u := NewAccount(id, name, email, password, role);
      Login(users + [u], email, password, matchPassword).LoggedIn? <==> RegistrationIssuesToken(u)
  {
    FindAppended(users, NewAccount(id, name, email, password, role));
  }
}
