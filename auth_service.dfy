/** `AuthServiceImpl`: registration and login. Password hashing is the function
    `encode`; the mobile-number library is `isMobileNumber`; `JWTToken.generate`, which
    authenticates the submitted email and password against the table as it stands
    and signs a token for the result, is the function `issue`. */
module AuthServices {
  import opened Wrappers
  import opened Errors
  import opened Users
  import opened UserDtos
  import opened UserServices
  import opened Validation
  import opened InitUsers

  datatype RegisterRequest = RegisterRequest(
    firstName: string,
    lastName: string,
    email: string,
    mobile: Option<string>,
    password: string,
    confirmPassword: string)

  datatype LoginRequest = LoginRequest(email: string, password: string)

  /** `JwtResponseDTO`: the view of the user, the token and its type. */
  datatype JwtResponse = JwtResponse(user: UserDTO, token: string, tokenType: string)

  const TokenType := "Bearer"
  const InvalidMobileMessage := "Invalid mobile number! Please provide proper mobile number."
  const PasswordMismatchMessage := "Password and confirm password are not the same."

  /** `String.format` of a possibly null string. */
  function ShowNullable(s: Option<string>): string {
    if s.None? then "null" else s.value
  }

  function AlreadyExistsMessage(email: string, mobile: Option<string>): string {
    "User with email: " + email + " or mobile: " + ShowNullable(mobile) + " already exists."
  }

  /** The first of `register`'s four checks that fails, in the order the source makes
      them: email, mobile (only when one is given), existing email or mobile,
      password confirmation. The existence step is the derived query as Spring Data
      runs it, so without a mobile it also matches every row that has no mobile. */
  function RegistrationFault(users: seq<User>, req: RegisterRequest, isMobileNumber: string -> bool)
    : (f: Option<Fault>)
    ensures !CheckEmailValidation(Some(req.email)) ==> f == Some(Runtime(InvalidEmailMessage))
    ensures CheckEmailValidation(Some(req.email)) && req.mobile.Some? ==>
      var m := CheckMobileNumberValidation(req.mobile, isMobileNumber);
      && (m.Err? ==> f == Some(m.error))
      && (m == Ok(false) ==> f == Some(Runtime(InvalidMobileMessage)))
    ensures CheckEmailValidation(Some(req.email))
            && (req.mobile.None? || CheckMobileNumberValidation(req.mobile, isMobileNumber) == Ok(true))
            && ExistsByEmailOrMobileAsWritten(users, req.email, req.mobile)
            ==> f == Some(Runtime(AlreadyExistsMessage(req.email, req.mobile)))
    ensures f.None? <==>
      && CheckEmailValidation(Some(req.email))
      && (req.mobile.None? || CheckMobileNumberValidation(req.mobile, isMobileNumber) == Ok(true))
      && !ExistsByEmailOrMobileAsWritten(users, req.email, req.mobile)
      && req.password == req.confirmPassword
    ensures f.Some? && CheckEmailValidation(Some(req.email))
            && (req.mobile.None? || CheckMobileNumberValidation(req.mobile, isMobileNumber) == Ok(true))
            && !ExistsByEmailOrMobileAsWritten(users, req.email, req.mobile)
            ==> f == Some(Runtime(PasswordMismatchMessage))
  {
    if !CheckEmailValidation(Some(req.email)) then Some(Runtime(InvalidEmailMessage))
    else if req.mobile.Some? && CheckMobileNumberValidation(req.mobile, isMobileNumber).Err? then
      Some(CheckMobileNumberValidation(req.mobile, isMobileNumber).error)
    else if req.mobile.Some? && !CheckMobileNumberValidation(req.mobile, isMobileNumber).value then
      Some(Runtime(InvalidMobileMessage))
    else if ExistsByEmailOrMobileAsWritten(users, req.email, req.mobile) then
      Some(Runtime(AlreadyExistsMessage(req.email, req.mobile)))
    else if req.password != req.confirmPassword then Some(Runtime(PasswordMismatchMessage))
    else None
  }

  /** An empty mobile is not null, so it reaches the mobile check and is refused as
      missing, after a valid email and before the table is consulted. */
  lemma EmptyMobileRefused(users: seq<User>, req: RegisterRequest, isMobileNumber: string -> bool)
    requires CheckEmailValidation(Some(req.email)) && req.mobile == Some("")
    ensures RegistrationFault(users, req, isMobileNumber) == Some(Runtime(MobileMissingMessage))
  {
  }

  /** The row `register` builds: the submitted names, email and mobile, the encoded
      password, the user role, and the builder's default flags. */
  function NewUser(req: RegisterRequest, encode: string -> string): (u: User)
    ensures u.firstName == req.firstName && u.lastName == req.lastName
    ensures u.email == req.email && u.mobile == req.mobile
    ensures u.password == encode(req.password) && u.role == RoleUser
    ensures u.active && !u.locked && !u.blocked && !u.deleted
  {
    Built(req.firstName, req.lastName, req.email, req.mobile, encode(req.password), RoleUser)
  }

  /** The checks of `register` leave nothing for the unique columns to refuse: once they
      pass, saving the new row can only fail its field constraints, and a table with
      unique keys keeps them. */
  lemma RegistrationChecksPreventDuplicates(users: seq<User>, req: RegisterRequest,
                                            isMobileNumber: string -> bool, encode: string -> string)
    requires UniqueKeys(users) && RegistrationFault(users, req, isMobileNumber).None?
    ensures InsertFault(users, NewUser(req, encode)) != Some(DuplicateKey)
    ensures InsertFault(users, NewUser(req, encode)).None? ==> UniqueKeys(users + [NewUser(req, encode)])
  {
    CorrectedWithinAsWritten(users, req.email, req.mobile);
    UniqueKeysAfterAppend(users, NewUser(req, encode));
  }

  /** The end of `register` and of `login`: the view of the row and a token. */
  method Respond(user: User, jwt: string) returns (r: JwtResponse)
    ensures fresh(r.user) && r.token == jwt && r.tokenType == TokenType
    ensures r.user.Fields() == Sanitised(DtoOf(user))
  {
    var dto := new UserDTO.FromUser(user);
    var view := dto.ToViewDTO();
    r := JwtResponse(view, jwt, TokenType);
  }

  /** The part of `register` after the checks: save the row, then ask for a token
      against the table that now holds it. */
  method SaveAndIssue(store: UserStore, u: User, req: RegisterRequest,
                      issue: (seq<User>, string, string) -> Result<string, Fault>)
    returns (r: Result<JwtResponse, Fault>)
    modifies store
    ensures var saved := InsertFault(old(store.users), u);
      && (saved.Some? ==> r == Err(saved.value) && store.users == old(store.users))
      && (saved.None? ==> store.users == old(store.users) + [u])
      && (saved.None? && issue(store.users, req.email, req.password).Err? ==>
            r == Err(issue(store.users, req.email, req.password).error))
      && (saved.None? && issue(store.users, req.email, req.password).Ok? ==>
            && r.Ok? && fresh(r.value.user)
            && r.value.token == issue(store.users, req.email, req.password).value
            && r.value.tokenType == TokenType
            && r.value.user.Fields() == Sanitised(DtoOf(u)))
    ensures UniqueKeys(old(store.users)) ==> UniqueKeys(store.users)
  {
    var saved := store.Save(u);
    if saved.Err? {
      return Err(saved.error);
    }
    var jwt := issue(store.users, req.email, req.password);
    if jwt.Err? {
      return Err(jwt.error);
    }
    var response := Respond(saved.value, jwt.value);
    r := Ok(response);
  }

  /** `register`. Nothing is saved when a check fails; otherwise the new row is saved
      and only then is a token requested, against the table that now holds it. A
      token failure leaves the row saved. */
  method Register(store: UserStore, req: RegisterRequest, encode: string -> string,
                  isMobileNumber: string -> bool, issue: (seq<User>, string, string) -> Result<string, Fault>)
    returns (r: Result<JwtResponse, Fault>)
    modifies store
    ensures var f := RegistrationFault(old(store.users), req, isMobileNumber);
      f.Some? ==> r == Err(f.value) && store.users == old(store.users)
    ensures var u := NewUser(req, encode);
      var saved := InsertFault(old(store.users), u);
      RegistrationFault(old(store.users), req, isMobileNumber).None? ==>
        && (saved.Some? ==> r == Err(saved.value) && store.users == old(store.users))
        && (saved.None? ==> store.users == old(store.users) + [u])
        && (saved.None? && issue(store.users, req.email, req.password).Err? ==>
              r == Err(issue(store.users, req.email, req.password).error))
        && (saved.None? && issue(store.users, req.email, req.password).Ok? ==>
              && r.Ok? && fresh(r.value.user)
              && r.value.token == issue(store.users, req.email, req.password).value
              && r.value.tokenType == TokenType
              && r.value.user.Fields() == Sanitised(DtoOf(u)))
    ensures UniqueKeys(old(store.users)) ==> UniqueKeys(store.users)
  {
    if !CheckEmailValidation(Some(req.email)) {
      return Err(Runtime(InvalidEmailMessage));
    }
    if req.mobile.Some? {
      var valid := CheckMobileNumberValidation(req.mobile, isMobileNumber);
      if valid.Err? {
        return Err(valid.error);
      }
      if !valid.value {
        return Err(Runtime(InvalidMobileMessage));
      }
    }
    if ExistsByEmailOrMobileAsWritten(store.users, req.email, req.mobile) {
      return Err(Runtime(AlreadyExistsMessage(req.email, req.mobile)));
    }
    if req.password != req.confirmPassword {
      return Err(Runtime(PasswordMismatchMessage));
    }
    r := SaveAndIssue(store, NewUser(req, encode), req, issue);
  }

  /** `login`: the row with the email, then a token for the submitted credentials. An
      unknown email fails before a token is asked for. */
  method Login(users: seq<User>, req: LoginRequest, issue: (seq<User>, string, string) -> Result<string, Fault>)
    returns (r: Result<JwtResponse, Fault>)
    ensures GetUserByEmail(users, req.email).Err? ==> r == Err(Runtime(UserNotFoundMessage(req.email)))
    ensures GetUserByEmail(users, req.email).Ok? && issue(users, req.email, req.password).Err? ==>
      r == Err(issue(users, req.email, req.password).error)
    ensures GetUserByEmail(users, req.email).Ok? && issue(users, req.email, req.password).Ok? ==>
      && r.Ok? && fresh(r.value.user)
      && r.value.token == issue(users, req.email, req.password).value
      && r.value.tokenType == TokenType
      && r.value.user.Fields() == Sanitised(DtoOf(GetUserByEmail(users, req.email).value))
      && r.value.user.email == Some(req.email)
  {
    var user := GetUserByEmail(users, req.email);
    if user.Err? {
      return Err(user.error);
    }
    var jwt := issue(users, req.email, req.password);
    if jwt.Err? {
      return Err(jwt.error);
    }
    var response := Respond(user.value, jwt.value);
    r := Ok(response);
  }

  /** Once the administrator (who has no mobile) is seeded, `register` refuses every
      registration without a mobile as already existing, whatever its email, while
      the corrected check would refuse it only when the email is taken. */
  lemma SeededAdminBlocksMobilelessSignUpAsWritten(email: string, password: string,
                                                   encode: string -> string, req: RegisterRequest,
                                                   isMobileNumber: string -> bool)
    requires SeedAdmin([], email, password, encode).Ok? && req.mobile.None?
    requires CheckEmailValidation(Some(req.email))
    ensures var seeded := SeedAdmin([], email, password, encode).value;
      && RegistrationFault(seeded, req, isMobileNumber) == Some(Runtime(AlreadyExistsMessage(req.email, None)))
      && (ExistsByEmailOrMobile(seeded, req.email, req.mobile) <==> req.email == email)
  {
    var seeded := SeedAdmin([], email, password, encode).value;
    assert seeded == [AdminUser(email, password, encode)];
    AsWrittenRejectsEveryMobilelessEmail(seeded, req.email, 0);
    NoMobileMeansEmailOnly(seeded, req.email);
  }
}
