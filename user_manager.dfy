/**
 * The part of ASP.NET Identity's `UserManager<User>` the account controller
 * uses, over an in-memory user table and external-login table.
 *
 * What Identity decides with code that is not part of this model is a
 * parameter: the errors its password and user validators report, whether a
 * reset token is valid, and the password hash function.
 */
module Identity {
  import opened Wrappers
  import opened Tables
  import opened Models

  // Errors of Identity's default `IdentityErrorDescriber`.
  const PasswordMismatch := IdentityError("PasswordMismatch", "Incorrect password.")
  const InvalidToken := IdentityError("InvalidToken", "Invalid token.")
  const LoginAlreadyAssociated := IdentityError("LoginAlreadyAssociated", "A user with this login already exists.")
  const ConcurrencyFailure := IdentityError("ConcurrencyFailure", "Optimistic concurrency failure, object has been modified.")

  /** `UserLoginInfo(loginProvider, providerKey, displayName)`. */
  datatype UserLoginInfo = UserLoginInfo(loginProvider: string, providerKey: string, providerDisplayName: string)

  class UserManager {
    var users: seq<User>
    var logins: seq<UserLogin>
    /** The password hasher; `CheckPasswordAsync` compares hashes. */
    const hasher: string -> string

    constructor (hasher: string -> string)
      ensures users == [] && logins == [] && this.hasher == hasher
    {
      users := [];
      logins := [];
      this.hasher := hasher;
    }

    ghost function Ids(): set<UserId>
      reads this
    {
      set u | u in users :: u.id
    }

    /** Unique user ids, unique (provider, key) logins, and every login belongs to a stored user. */
    ghost predicate Valid()
      reads this
    {
      && UniqueBy(users, UserKey)
      && UniqueBy(logins, LoginKey)
      && forall k :: 0 <= k < |logins| ==> logins[k].userId in Ids()
    }

    /** `FindByEmailAsync`: the first user with that email. */
    function FindByEmail(email: string): (r: Option<User>)
      reads this
      ensures r.None? <==> forall k :: 0 <= k < |users| ==> users[k].email != email
      ensures r.Some? ==> r.value in users && r.value.email == email
    {
      First(users, UserHasEmail(email))
    }

    /** `FindByIdAsync`. */
    function FindById(id: UserId): (r: Option<User>)
      reads this
      ensures r.None? <==> id !in Ids()
      ensures r.Some? ==> r.value in users && r.value.id == id
    {
      First(users, UserHasId(id))
    }

    /** `FindByLoginAsync`: the owner of the login for (provider, key). */
    function FindByLogin(provider: string, key: string): (r: Option<User>)
      reads this
      ensures Valid() ==> (r.None? <==> forall k :: 0 <= k < |logins| ==> LoginKey(logins[k]) != (provider, key))
      ensures r.Some? ==> r.value in users
      ensures r.Some? ==> exists k :: 0 <= k < |logins| && LoginKey(logins[k]) == (provider, key) && logins[k].userId == r.value.id
    {
      match First(logins, LoginIs(provider, key))
      case None => None
      case Some(l) => FindById(l.userId)
    }

    /** `CheckPasswordAsync`: the password hashes to the stored hash. */
    predicate CheckPassword(user: User, password: string)
      ensures CheckPassword(user, password) ==> user.passwordHash.Some?
    {
      user.passwordHash == Some(hasher(password))
    }

    /** The user as stored after `CreateAsync(user, password)`: only the hash changes, and the password then checks. */
    function WithPassword(user: User, password: Option<string>): (u: User)
      ensures u.id == user.id && u.email == user.email && u.userName == user.userName && u.nickname == user.nickname
      ensures password.None? ==> u.passwordHash == user.passwordHash
      ensures password.Some? ==> CheckPassword(u, password.value)
    {
      match password
      case None => user
      case Some(p) => user.(passwordHash := Some(hasher(p)))
    }

    lemma ReplaceKeepsIds(u: User)
      requires Valid() && u.id in Ids()
      ensures (set x | x in ReplaceWhere(users, UserHasId(u.id), u) :: x.id) == Ids()
      ensures UniqueBy(ReplaceWhere(users, UserHasId(u.id), u), UserKey)
    {
      var r := ReplaceWhere(users, UserHasId(u.id), u);
      forall x | x in r ensures x.id in Ids() {
        var k :| 0 <= k < |r| && r[k] == x;
        assert users[k] in users;
      }
      forall id | id in Ids() ensures exists x :: x in r && x.id == id {
        var y :| y in users && y.id == id;
        var k :| 0 <= k < |users| && users[k] == y;
        assert r[k] in r;
      }
      ReplaceUnique(users, UserHasId(u.id), u, UserKey);
    }

    /** `CreateAsync(user[, password])`: stores the user unless the validators report errors. */
    method CreateAsync(user: User, password: Option<string>, errors: seq<IdentityError>) returns (result: IdentityResult)
      requires Valid() && FreshKey(users, UserKey, user.id)
      modifies this
      ensures Valid()
      ensures result == Outcome(errors)
      ensures users == if errors == [] then old(users) + [WithPassword(user, password)] else old(users)
      ensures logins == old(logins)
    {
      if errors != [] {
        return Failed(errors);
      }
      AppendUnique(users, UserKey, WithPassword(user, password));
      users := users + [WithPassword(user, password)];
      result := Success;
    }

    /** `UpdateAsync(user)`: writes the user's record unless the validators report errors. */
    method UpdateAsync(user: User, errors: seq<IdentityError>) returns (result: IdentityResult)
      requires Valid() && user.id in Ids()
      modifies this
      ensures Valid()
      ensures result == Outcome(errors)
      ensures users == if errors == [] then ReplaceWhere(old(users), UserHasId(user.id), user) else old(users)
      ensures logins == old(logins)
      // the written user is what a lookup by its email then finds, if it was found by that email before
      ensures errors == [] && old(FindByEmail(user.email)).Some? && old(FindByEmail(user.email)).value.id == user.id ==>
        FindByEmail(user.email) == Some(user)
    {
      if errors != [] {
        return Failed(errors);
      }
      ReplaceKeepsIds(user);
      if First(users, UserHasEmail(user.email)).Some? && First(users, UserHasEmail(user.email)).value.id == user.id {
        FirstReplaced(users, UserHasEmail(user.email), UserHasId(user.id), UserKey, user);
      }
      users := ReplaceWhere(users, UserHasId(user.id), user);
      result := Success;
    }

    /** `ChangePasswordAsync(user, currentPassword, newPassword)`. */
    method ChangePasswordAsync(user: User, currentPassword: string, newPassword: string, errors: seq<IdentityError>)
      returns (result: IdentityResult)
      requires Valid() && user.id in Ids()
      modifies this
      ensures Valid()
      ensures !CheckPassword(user, currentPassword) ==> result == Failed([PasswordMismatch]) && users == old(users)
      ensures CheckPassword(user, currentPassword) ==>
        && result == Outcome(errors)
        && users == if errors == [] then ReplaceWhere(old(users), UserHasId(user.id), WithPassword(user, Some(newPassword))) else old(users)
      ensures logins == old(logins)
      ensures result.Succeeded() && old(FindByEmail(user.email)) == Some(user) ==>
        FindByEmail(user.email) == Some(WithPassword(user, Some(newPassword)))
    {
      if !CheckPassword(user, currentPassword) {
        return Failed([PasswordMismatch]);
      }
      result := UpdateAsync(WithPassword(user, Some(newPassword)), errors);
    }

    /** `ResetPasswordAsync(user, token, newPassword)`; `tokenValid` is the token provider's verdict. */
    method ResetPasswordAsync(user: User, tokenValid: bool, newPassword: string, errors: seq<IdentityError>)
      returns (result: IdentityResult)
      requires Valid() && user.id in Ids()
      modifies this
      ensures Valid()
      ensures !tokenValid ==> result == Failed([InvalidToken]) && users == old(users)
      ensures tokenValid ==>
        && result == Outcome(errors)
        && users == if errors == [] then ReplaceWhere(old(users), UserHasId(user.id), WithPassword(user, Some(newPassword))) else old(users)
      ensures logins == old(logins)
      ensures result.Succeeded() && old(FindByEmail(user.email)) == Some(user) ==>
        FindByEmail(user.email) == Some(WithPassword(user, Some(newPassword)))
    {
      if !tokenValid {
        return Failed([InvalidToken]);
      }
      result := UpdateAsync(WithPassword(user, Some(newPassword)), errors);
    }

    /** `AddLoginAsync(user, info)`: refuses a login already in use, and a user that is not stored. */
    method AddLoginAsync(user: User, info: UserLoginInfo) returns (result: IdentityResult)
      requires Valid()
      modifies this
      ensures Valid()
      ensures users == old(users)
      ensures old(FindByLogin(info.loginProvider, info.providerKey)).Some? ==>
        result == Failed([LoginAlreadyAssociated]) && logins == old(logins)
      ensures old(FindByLogin(info.loginProvider, info.providerKey)).None? && user.id !in Ids() ==>
        result == Failed([ConcurrencyFailure]) && logins == old(logins)
      ensures old(FindByLogin(info.loginProvider, info.providerKey)).None? && user.id in Ids() ==>
        result == Success &&
        logins == old(logins) + [UserLogin(info.loginProvider, info.providerKey, info.providerDisplayName, user.id)]
    {
      if FindByLogin(info.loginProvider, info.providerKey).Some? {
        return Failed([LoginAlreadyAssociated]);
      }
      if FindById(user.id).None? {
        return Failed([ConcurrencyFailure]);
      }
      var row := UserLogin(info.loginProvider, info.providerKey, info.providerDisplayName, user.id);
      AppendUnique(logins, LoginKey, row);
      logins := logins + [row];
      result := Success;
    }
  }
}
