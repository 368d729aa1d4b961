/**
 * `AccountsController`: registration, password login, account information,
 * settings changes, the password-reset pair and external (Facebook / Google)
 * login, over Identity's user and login tables.
 *
 * JWT issuance is the function `generateToken`; a provider's verdict on an
 * external token and a reset token's validity are parameters.
 */
module AccountsApi {
  import opened Wrappers
  import opened Tables
  import opened Models
  import opened Identity
  import opened EmailService

  datatype UserToRegisterDto = UserToRegisterDto(email: string, nickname: string, password: string)
  datatype UserToLoginDto = UserToLoginDto(email: string, password: string)
  datatype ChangeSettingsDto = ChangeSettingsDto(
    email: string, nickname: string, oldPassword: string, password: string, confirmPassword: string)
  datatype ForgotPasswordDto = ForgotPasswordDto(email: string, clientUri: string)
  datatype ResetPasswordDto = ResetPasswordDto(email: string, token: string, password: string)
  datatype ExternalAuthDto = ExternalAuthDto(provider: string, idToken: string)

  /** What a provider reports for a valid token: the account's key (Facebook `Id`, Google `Subject`) and email. */
  datatype ExternalAccount = ExternalAccount(key: string, email: string)

  /** The `Nickname` and `Email` of `AccountInfo`'s JSON object. */
  datatype AccountInfoData = AccountInfoData(nickname: string, email: string)

  const Facebook := "FACEBOOK"
  const Google := "GOOGLE"
  const ResetPasswordSubject := "Reset password token"

  /** `!OldPassword.IsNullOrEmpty() && !Password.IsNullOrEmpty() && !ConfirmPassword.IsNullOrEmpty()`. */
  predicate ChangesPassword(dto: ChangeSettingsDto) {
    dto.oldPassword != "" && dto.password != "" && dto.confirmPassword != ""
  }

  /** The user `Register` maps from the DTO before `CreateAsync` hashes the password. */
  function RegisteredUser(dto: UserToRegisterDto, id: UserId): (u: User)
    ensures u.id == id && u.email == dto.email && u.userName == dto.email && u.nickname == dto.nickname
    ensures u.passwordHash.None?
  {
    User(id, dto.email, dto.email, dto.nickname, None)
  }

  /** The user `ExternalLogin` creates for an email nobody has: `Email = UserName = Nickname = email`, no password. */
  function ExternalUser(email: string, id: UserId): (u: User)
    ensures u.id == id && u.email == email && u.userName == email && u.nickname == email && u.passwordHash.None?
  {
    User(id, email, email, email, None)
  }

  /** The reset message: to the user's email, with the token and the email as query parameters of the client URI. */
  function ResetMessage(user: User, dto: ForgotPasswordDto, token: string): (m: Message)
    ensures m.to == [user.email] && m.subject == ResetPasswordSubject
    ensures m.content.uri == dto.clientUri && m.content.query == [("token", token), ("email", dto.email)]
  {
    Message([user.email], ResetPasswordSubject, Callback(dto.clientUri, [("token", token), ("email", dto.email)]))
  }

  class AccountsController {
    const userManager: UserManager
    const emailSender: EmailSender
    /** `JwtHandler.GenerateToken(user)`. */
    const generateToken: User -> string

    constructor (userManager: UserManager, emailSender: EmailSender, generateToken: User -> string)
      ensures this.userManager == userManager && this.emailSender == emailSender
      ensures this.generateToken == generateToken
    {
      this.userManager := userManager;
      this.emailSender := emailSender;
      this.generateToken := generateToken;
    }

    ghost predicate Valid()
      reads userManager
    {
      userManager.Valid()
    }

    /** `Login(dto)`: a token for the user with that email and password; one rejection for every failure. */
    function Login(dto: UserToLoginDto): (r: Response<string>)
      reads userManager
      ensures var user := userManager.FindByEmail(dto.email);
        (user.None? || !userManager.CheckPassword(user.value, dto.password)) <==> r == Unauthorized(InvalidAuthentication)
      ensures var user := userManager.FindByEmail(dto.email);
        user.Some? && userManager.CheckPassword(user.value, dto.password) ==> r == Ok(Some(generateToken(user.value)))
    {
      match userManager.FindByEmail(dto.email)
      case None => Unauthorized(InvalidAuthentication)
      case Some(user) =>
        if !userManager.CheckPassword(user, dto.password) then Unauthorized(InvalidAuthentication)
        else Ok(Some(generateToken(user)))
    }

    /** `AccountInfo(userName)`: the nickname and email of the user with that email. */
    function AccountInfo(userName: string): (r: Response<AccountInfoData>)
      reads userManager
      ensures userManager.FindByEmail(userName).None? <==> r == Unauthorized(InvalidAuthentication)
      ensures var user := userManager.FindByEmail(userName); user.Some? ==>
        r == Ok(Some(AccountInfoData(user.value.nickname, userName)))
    {
      match userManager.FindByEmail(userName)
      case None => Unauthorized(InvalidAuthentication)
      case Some(user) => Ok(Some(AccountInfoData(user.nickname, user.email)))
    }

    /** `Register(dto)`: creates the user, or reports every validator error's description in order. */
    method Register(dto: UserToRegisterDto, newId: UserId, errors: seq<IdentityError>) returns (response: Response<()>)
      requires Valid() && FreshKey(userManager.users, UserKey, newId)
      modifies userManager
      ensures Valid() && userManager.logins == old(userManager.logins)
      ensures errors != [] ==>
        response == BadRequest(Descriptions(errors)) && userManager.users == old(userManager.users)
      ensures errors == [] ==>
        && response == Status(CreatedCode)
        && userManager.users == old(userManager.users) + [User(newId, dto.email, dto.email, dto.nickname, Some(userManager.hasher(dto.password)))]
      // a first account with this email can log in with the password it registered
      ensures errors == [] && old(userManager.FindByEmail(dto.email)).None? ==>
        Login(UserToLoginDto(dto.email, dto.password)).isSuccess
    {
      var user := RegisteredUser(dto, newId);
      var result := userManager.CreateAsync(user, Some(dto.password), errors);
      if !result.Succeeded() {
        return BadRequest(Descriptions(result.errors));
      }
      if First(old(userManager.users), UserHasEmail(dto.email)).None? {
        FirstAppend(old(userManager.users), userManager.WithPassword(user, Some(dto.password)), UserHasEmail(dto.email));
      }
      response := Status(CreatedCode);
    }

    /**
     * `ChangeSettings(dto)`: with all three password fields given, checks the old
     * password and changes it; then sets the nickname and writes the user.
     */
    method ChangeSettings(dto: ChangeSettingsDto, changeErrors: seq<IdentityError>, updateErrors: seq<IdentityError>)
      returns (response: Response<string>)
      requires Valid()
      modifies userManager
      ensures Valid() && userManager.logins == old(userManager.logins)
      ensures old(userManager.FindByEmail(dto.email)).None? ==>
        response == Unauthorized(InvalidAuthentication) && userManager.users == old(userManager.users)
      ensures var user := old(userManager.FindByEmail(dto.email)); user.Some? && ChangesPassword(dto) ==>
        && (!userManager.CheckPassword(user.value, dto.oldPassword) ==>
              response == BadRequest([InvalidPassword]) && userManager.users == old(userManager.users))
        && (userManager.CheckPassword(user.value, dto.oldPassword) && changeErrors != [] ==>
              response == BadRequest(Descriptions(changeErrors)) && userManager.users == old(userManager.users))
      ensures var user := old(userManager.FindByEmail(dto.email));
        user.Some? && ChangesPassword(dto) && userManager.CheckPassword(user.value, dto.oldPassword) && changeErrors == [] ==>
        var changed := userManager.WithPassword(user.value, Some(dto.password));
        var updated := changed.(nickname := dto.nickname);
        && (updateErrors != [] ==>
              && response == BadRequest(Descriptions(updateErrors))
              && userManager.users == ReplaceWhere(old(userManager.users), UserHasId(user.value.id), changed))
        && (updateErrors == [] ==>
              && response == Ok(Some(generateToken(updated)))
              && userManager.users == ReplaceWhere(old(userManager.users), UserHasId(user.value.id), updated)
              && Login(UserToLoginDto(dto.email, dto.password)) == response
              && AccountInfo(dto.email) == Ok(Some(AccountInfoData(dto.nickname, dto.email))))
      ensures var user := old(userManager.FindByEmail(dto.email)); user.Some? && !ChangesPassword(dto) ==>
        var updated := user.value.(nickname := dto.nickname);
        && (updateErrors != [] ==>
              response == BadRequest(Descriptions(updateErrors)) && userManager.users == old(userManager.users))
        && (updateErrors == [] ==>
              && response == Ok(Some(generateToken(updated)))
              && userManager.users == ReplaceWhere(old(userManager.users), UserHasId(user.value.id), updated)
              && AccountInfo(dto.email) == Ok(Some(AccountInfoData(dto.nickname, dto.email))))
    {
      var found := userManager.FindByEmail(dto.email);
      if found.None? {
        return Unauthorized(InvalidAuthentication);
      }
      var user := found.value;
      ghost var before := userManager.users;
      if ChangesPassword(dto) {
        if !userManager.CheckPassword(user, dto.oldPassword) {
          return BadRequest([InvalidPassword]);
        }
        var result := userManager.ChangePasswordAsync(user, dto.oldPassword, dto.password, changeErrors);
        if !result.Succeeded() {
          return BadRequest(Descriptions(result.errors));
        }
        user := userManager.WithPassword(user, Some(dto.password));
      }
      user := user.(nickname := dto.nickname);
      var result := userManager.UpdateAsync(user, updateErrors);
      if !result.Succeeded() {
        return BadRequest(Descriptions(result.errors));
      }
      if ChangesPassword(dto) {
        ReplaceTwice(before, UserHasId(user.id), userManager.WithPassword(found.value, Some(dto.password)), user);
      }
      response := Ok(Some(generateToken(user)));
    }

    /** `ForgotPassword(dto)`: mails a reset token to the user with that email; `token` is Identity's. */
    method ForgotPassword(dto: ForgotPasswordDto, token: string) returns (response: Response<()>)
      modifies emailSender
      ensures userManager.FindByEmail(dto.email).None? ==>
        response == Unauthorized(InvalidAuthentication) && emailSender.sent == old(emailSender.sent)
      ensures var user := userManager.FindByEmail(dto.email); user.Some? ==>
        response == Status(OkCode) && emailSender.sent == old(emailSender.sent) + [ResetMessage(user.value, dto, token)]
    {
      var user := userManager.FindByEmail(dto.email);
      if user.None? {
        return Unauthorized(InvalidAuthentication);
      }
      emailSender.SendEmailAsync(ResetMessage(user.value, dto, token));
      response := Status(OkCode);
    }

    /** `ResetPassword(dto)`: sets the new password when the reset token is valid. */
    method ResetPassword(dto: ResetPasswordDto, tokenValid: bool, errors: seq<IdentityError>) returns (response: Response<()>)
      requires Valid()
      modifies userManager
      ensures Valid() && userManager.logins == old(userManager.logins)
      ensures old(userManager.FindByEmail(dto.email)).None? ==>
        response == Unauthorized(InvalidAuthentication) && userManager.users == old(userManager.users)
      ensures var user := old(userManager.FindByEmail(dto.email)); user.Some? ==>
        && (!tokenValid ==> response == BadRequest([InvalidToken.description]) && userManager.users == old(userManager.users))
        && (tokenValid && errors != [] ==>
              response == BadRequest(Descriptions(errors)) && userManager.users == old(userManager.users))
        && (tokenValid && errors == [] ==>
              && response == Status(OkCode)
              && userManager.users == ReplaceWhere(old(userManager.users), UserHasId(user.value.id),
                   userManager.WithPassword(user.value, Some(dto.password)))
              && Login(UserToLoginDto(dto.email, dto.password)) ==
                   Ok(Some(generateToken(userManager.WithPassword(user.value, Some(dto.password))))))
    {
      var user := userManager.FindByEmail(dto.email);
      if user.None? {
        return Unauthorized(InvalidAuthentication);
      }
      var result := userManager.ResetPasswordAsync(user.value, tokenValid, dto.password, errors);
      if !result.Succeeded() {
        return BadRequest(Descriptions(result.errors));
      }
      response := Status(OkCode);
    }

    /**
     * `ExternalLogin(dto)`: `verified` is the provider's verdict on the token.
     * The user is the owner of the login if there is one, else the user with
     * the email, who gets the login, else a new user, who gets the login.
     */
    method ExternalLogin(dto: ExternalAuthDto, verified: Option<ExternalAccount>, newId: UserId,
                         createErrors: seq<IdentityError>) returns (response: Response<string>)
      requires Valid() && FreshKey(userManager.users, UserKey, newId)
      modifies userManager
      ensures Valid()
      ensures (dto.provider != Facebook && dto.provider != Google) || verified.None? ==>
        && response == BadRequest([InvalidExternalAuthentication])
        && userManager.users == old(userManager.users) && userManager.logins == old(userManager.logins)
      ensures (dto.provider == Facebook || dto.provider == Google) && verified.Some? ==>
        var account := verified.value;
        var owner := old(userManager.FindByLogin(dto.provider, account.key));
        var holder := old(userManager.FindByEmail(account.email));
        var login := UserLogin(dto.provider, account.key, dto.provider, 0);
        && (owner.Some? ==>
              && response == Ok(Some(generateToken(owner.value)))
              && userManager.users == old(userManager.users) && userManager.logins == old(userManager.logins))
        && (owner.None? && holder.Some? ==>
              && response == Ok(Some(generateToken(holder.value)))
              && userManager.users == old(userManager.users)
              && userManager.logins == old(userManager.logins) + [login.(userId := holder.value.id)])
        && (owner.None? && holder.None? ==>
              && response == Ok(Some(generateToken(ExternalUser(account.email, newId))))
              && userManager.users == old(userManager.users) + (if createErrors == [] then [ExternalUser(account.email, newId)] else [])
              && userManager.logins == old(userManager.logins) + (if createErrors == [] then [login.(userId := newId)] else []))
    {
      if (dto.provider != Facebook && dto.provider != Google) || verified.None? {
        return BadRequest([InvalidExternalAuthentication]);
      }
      var info := UserLoginInfo(dto.provider, verified.value.key, dto.provider);
      var email := verified.value.email;
      var user := userManager.FindByLogin(info.loginProvider, info.providerKey);
      if user.None? {
        user := userManager.FindByEmail(email);
        if user.None? {
          user := Some(ExternalUser(email, newId));
          var _ := userManager.CreateAsync(user.value, None, createErrors);
          var _ := userManager.AddLoginAsync(user.value, info);
        } else {
          var _ := userManager.AddLoginAsync(user.value, info);
        }
      }
      response := Ok(Some(generateToken(user.value)));
    }
  }
}
