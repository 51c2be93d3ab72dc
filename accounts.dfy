/** The user collection and the endpoints that change it: registration and
    profile update from the authentication controller, and the admin
    operations of the user controller (create, delete, approve a mentor,
    toggle the active flag, change a password). */
module Accounts {
  import opened Collections
  import opened Records
  import Auth

  /** `user.isActive === undefined ? false : !user.isActive`: the stored flag
      after a toggle always flips whether the account counts as active. */
  function ToggledActive(flag: Option<bool>): (b: bool)
    ensures b == !ActiveFlag(flag)
    ensures flag.None? ==> !b
  {
    if flag.None? then false else !flag.value
  }

  /** Toggling twice from a stored flag restores it; from an absent flag it
      ends at true, which is the same "active" the absent flag meant. */
  lemma ToggleTwice(flag: Option<bool>)
    ensures flag.Some? ==> ToggledActive(Some(ToggledActive(flag))) == flag.value
    ensures flag.None? ==> ToggledActive(Some(ToggledActive(flag)))
  {
  }

  /** `isApproved !== undefined ? isApproved : true` in `createUser`. */
  function ApprovalDefault(given: Option<bool>): (b: bool)
    ensures given.None? ==> b
    ensures given.Some? ==> b == given.value
  {
    if given.Some? then given.value else true
  }

  /** The answers of the account endpoints. */
  datatype AccountError = UserExists | UserNotFound | PasswordRequired

  /** A registration: the new user and whether the answer carries a token. */
  datatype Registration = Registration(user: User, token: bool)

  /** Every stored user has its own id. */
  predicate UniqueIds(users: seq<User>) {
    forall i, j :: 0 <= i < j < |users| ==> users[i].id != users[j].id
  }

  class UserStore {
    var users: seq<User>

    ghost predicate Valid()
      reads this
    {
      UniqueIds(users)
    }

    constructor ()
      ensures Valid() && users == []
    {
      users := [];
    }

    /** `registerUser`: an email already in use is refused; otherwise the
        account is stored, approved unless it is a mentor's, and the answer
        carries a token unless it is a mentor's. */
    method Register(newId: Id, name: string, email: string, password: string, role: Option<Role>)
      returns (out: Reply<AccountError, Registration>)
      requires Valid() && forall u :: u in users ==> u.id != newId
      modifies this
      ensures Valid()
      ensures out == Fail(UserExists) <==> FindByEmail(old(users), email).Some?
      ensures out.Ok? <==> FindByEmail(old(users), email).None?
      ensures !out.Ok? ==> users == old(users)
      ensures out.Ok? ==>
        && out.value.user == Auth.NewAccount(newId, name, email, password, role)
        && out.value.token == Auth.RegistrationIssuesToken(out.value.user)
        && users == old(users) + [out.value.user]
    {
      if FindByEmail(users, email).Some? {
        return Fail(UserExists);
      }
      var isApproved := true;
      if role == Some(Mentor) {
        isApproved := false;
      }
      var user := User(newId, name, email, password, if role.Some? then role.value else Student,
                       isApproved, None);
      users := users + [user];
      out := Ok(Registration(user, user.role != Mentor));
    }

    /** `updateUserProfile`: the acting user's name, email and password are
        replaced by the truthy values supplied. */
    method UpdateProfile(actor: Id, name: string, email: string, password: string) returns (out: Reply<AccountError, User>)
      requires Valid()
      modifies this
      ensures Valid()
      ensures out == Fail(UserNotFound) <==> PositionOfId(old(users), actor) < 0
      ensures out.Ok? <==> PositionOfId(old(users), actor) >= 0
      ensures !out.Ok? ==> users == old(users)
      ensures out.Ok? ==>
        var k := PositionOfId(old(users), actor);
        && out.value == Auth.UpdatedProfile(old(users)[k], name, email, password)
        && users == old(users)[k := out.value]
    {
      var k := PositionOfId(users, actor);
      if k < 0 {
        return Fail(UserNotFound);
      }
      var user := users[k];
      user := user.(name := Fallback(name, user.name));
      user := user.(email := Fallback(email, user.email));
      if Truthy(password) {
        user := user.(password := password);
      }
      users := users[k := user];
      out := Ok(user);
    }

    /** `deleteUser`: a missing user is reported and nothing changes;
        otherwise exactly that user is removed. */
    method DeleteUser(id: Id) returns (out: Reply<AccountError, ()>)
      requires Valid()
      modifies this
      ensures Valid()
      ensures out == Fail(UserNotFound) <==> PositionOfId(old(users), id) < 0
      ensures out.Ok? <==> PositionOfId(old(users), id) >= 0
      ensures !out.Ok? ==> users == old(users)
      ensures out.Ok? ==>
        var k := PositionOfId(old(users), id);
        users == old(users)[..k] + old(users)[k + 1..]
      ensures forall u :: u in users ==> u in old(users) && u.id != id
    {
      var k := PositionOfId(users, id);
      if k < 0 {
        return Fail(UserNotFound);
      }
      users := users[..k] + users[k + 1..];
      out := Ok(());
    }

    /** `approveMentor`: sets `isApproved` on the user and touches nothing
        else; a missing user is reported. */
    method ApproveMentor(id: Id) returns (out: Reply<AccountError, User>)
      requires Valid()
      modifies this
      ensures Valid()
      ensures out == Fail(UserNotFound) <==> PositionOfId(old(users), id) < 0
      ensures out.Ok? <==> PositionOfId(old(users), id) >= 0
      ensures !out.Ok? ==> users == old(users)
      ensures out.Ok? ==>
        var k := PositionOfId(old(users), id);
        && out.value == old(users)[k].(isApproved := true)
        && users == old(users)[k := out.value]
      ensures PositionOfId(old(users), id) >= 0 && old(users)[PositionOfId(old(users), id)].isApproved ==>
        users == old(users)
    {
      var k := PositionOfId(users, id);
      if k < 0 {
        return Fail(UserNotFound);
      }
      var user := users[k];
      user := user.(isApproved := true);
      users := users[k := user];
      out := Ok(user);
    }

    /** `toggleUserStatus`: flips whether the user counts as active and
        answers the stored flag; a missing user is reported. */
    method ToggleUserStatus(id: Id) returns (out: Reply<AccountError, bool>)
      requires Valid()
      modifies this
      ensures Valid()
      ensures out == Fail(UserNotFound) <==> PositionOfId(old(users), id) < 0
      ensures out.Ok? <==> PositionOfId(old(users), id) >= 0
      ensures !out.Ok? ==> users == old(users)
      ensures out.Ok? ==>
        var k := PositionOfId(old(users), id);
        && out.value == ToggledActive(old(users)[k].isActive)
        && users == old(users)[k := old(users)[k].(isActive := Some(out.value))]
    {
      var k := PositionOfId(users, id);
      if k < 0 {
        return Fail(UserNotFound);
      }
      var user := users[k];
      user := user.(isActive := Some(if user.isActive.None? then false else !user.isActive.value));
      users := users[k := user];
      out := Ok(user.isActive.value);
    }

    /** `createUser` (admin): an email already in use is refused; otherwise
        the user is stored with the given role and approval, approved when
        no approval is given. */
    method CreateUser(newId: Id, name: string, email: string, password: string, role: Role,
                      isApproved: Option<bool>) returns (out: Reply<AccountError, User>)
      requires Valid() && forall u :: u in users ==> u.id != newId
      modifies this
      ensures Valid()
      ensures out == Fail(UserExists) <==> FindByEmail(old(users), email).Some?
      ensures out.Ok? <==> FindByEmail(old(users), email).None?
      ensures !out.Ok? ==> users == old(users)
      ensures out.Ok? ==>
        && out.value == User(newId, name, email, password, role, ApprovalDefault(isApproved), None)
        && users == old(users) + [out.value]
    {
      if FindByEmail(users, email).Some? {
        return Fail(UserExists);
      }
      var user := User(newId, name, email, password, role,
                       if isApproved.Some? then isApproved.value else true, None);
      users := users + [user];
      out := Ok(user);
    }

    /** `updatePassword`: the acting user must exist and a password must be
        supplied; only the password changes. */
    method UpdatePassword(actor: Id, password: string) returns (out: Reply<AccountError, ()>)
      requires Valid()
      modifies this
      ensures Valid()
      ensures out == Fail(UserNotFound) <==> PositionOfId(old(users), actor) < 0
      ensures out == Fail(PasswordRequired) <==> PositionOfId(old(users), actor) >= 0 && !Truthy(password)
      ensures out.Ok? <==> PositionOfId(old(users), actor) >= 0 && Truthy(password)
      ensures !out.Ok? ==> users == old(users)
      ensures out.Ok? ==>
        var k := PositionOfId(old(users), actor);
        users == old(users)[k := old(users)[k].(password := password)]
    {
      var k := PositionOfId(users, actor);
      if k < 0 {
        return Fail(UserNotFound);
      }
      if !Truthy(password) {
        return Fail(PasswordRequired);
      }
      users := users[k := users[k].(password := password)];
      out := Ok(());
    }
  }
}
