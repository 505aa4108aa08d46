/** `UserServiceImpl` over the `users` table. The table is a sequence of rows in
    insertion order; "find first" returns the earliest matching row. */
module UserServices {
  import opened Wrappers
  import opened Errors
  import opened Users
  import opened UserDtos
  import opened Principals

  // ---------------------------------------------------------------------------
  // Queries

  /** Position of the first row with this email, or `|users|` when there is none. */
  function FirstIndexByEmail(users: seq<User>, email: string): (k: nat)
    ensures k <= |users|
    ensures k < |users| ==> users[k].email == email
    ensures forall j :: 0 <= j < k ==> users[j].email != email
  {
    if users == [] then 0
    else if users[0].email == email then 0
    else 1 + FirstIndexByEmail(users[1..], email)
  }

  /** Row `k` is the earliest row with this email. */
  predicate IsFirstWithEmail(users: seq<User>, email: string, k: int) {
    0 <= k < |users| && users[k].email == email && forall j :: 0 <= j < k ==> users[j].email != email
  }

  /** `findFirstByEmail`: the earliest row with the email, in stored order. */
  function FindFirstByEmail(users: seq<User>, email: string): (r: Option<User>)
    ensures r.Some? <==> exists i :: 0 <= i < |users| && users[i].email == email
    ensures r.Some? ==> exists k :: IsFirstWithEmail(users, email, k) && users[k] == r.value
  {
    var k := FirstIndexByEmail(users, email);
    if k < |users| then assert IsFirstWithEmail(users, email, k); Some(users[k]) else None
  }

  /** With unique emails the first row with an email is the only one. */
  lemma FindFirstByEmailUnique(users: seq<User>, i: nat)
    requires UniqueKeys(users) && i < |users|
    ensures FindFirstByEmail(users, users[i].email) == Some(users[i])
  {
  }

  function UserNotFoundMessage(email: string): string {
    "User not found with email: " + email
  }

  /** `getUserByEmail`: the first row with the email, or a `RuntimeException` naming it. */
  function GetUserByEmail(users: seq<User>, email: string): (r: Result<User, Fault>)
    ensures r.Ok? <==> exists i :: 0 <= i < |users| && users[i].email == email
    ensures r.Ok? ==> exists k :: IsFirstWithEmail(users, email, k) && users[k] == r.value
    ensures r.Err? ==> r.error == Runtime(UserNotFoundMessage(email))
  {
    match FindFirstByEmail(users, email)
    case Some(u) => Ok(u)
    case None => Err(Runtime(UserNotFoundMessage(email)))
  }

  // ---------------------------------------------------------------------------
  // existsByEmailOrMobile

  /** The row condition of the derived query `findFirstByEmailOrMobile` as Spring Data
      runs it: an equality against a null argument becomes `IS NULL`, so a null
      mobile matches every row whose mobile is null. */
  predicate MatchesEmailOrMobileAsWritten(u: User, email: string, mobile: Option<string>) {
    u.email == email || u.mobile == mobile
  }

  /** `existsByEmailOrMobile` as written. */
  function ExistsByEmailOrMobileAsWritten(users: seq<User>, email: string, mobile: Option<string>): (b: bool)
    ensures b <==> exists i :: 0 <= i < |users| && MatchesEmailOrMobileAsWritten(users[i], email, mobile)
  {
    users != [] &&
      (MatchesEmailOrMobileAsWritten(users[0], email, mobile) ||
       ExistsByEmailOrMobileAsWritten(users[1..], email, mobile))
  }

  /** Once any stored row has no mobile, the check as written reports every
      registration without a mobile as already existing, whatever its email. */
  lemma AsWrittenRejectsEveryMobilelessEmail(users: seq<User>, email: string, i: nat)
    requires i < |users| && users[i].mobile.None?
    ensures ExistsByEmailOrMobileAsWritten(users, email, None)
  {
    assert MatchesEmailOrMobileAsWritten(users[i], email, None);
  }

  /** What the registration check evidently means: the email is taken, or the mobile
      given is taken by another row. */
  predicate MatchesEmailOrMobile(u: User, email: string, mobile: Option<string>) {
    u.email == email || (mobile.Some? && u.mobile == mobile)
  }

  /** `existsByEmailOrMobile`, corrected: a null mobile matches nothing. */
  function ExistsByEmailOrMobile(users: seq<User>, email: string, mobile: Option<string>): (b: bool)
    ensures b <==> exists i :: 0 <= i < |users| && MatchesEmailOrMobile(users[i], email, mobile)
  {
    users != [] &&
      (MatchesEmailOrMobile(users[0], email, mobile) || ExistsByEmailOrMobile(users[1..], email, mobile))
  }

  /** Without a mobile, the corrected check asks about the email only. */
  lemma NoMobileMeansEmailOnly(users: seq<User>, email: string)
    ensures ExistsByEmailOrMobile(users, email, None) <==> FindFirstByEmail(users, email).Some?
  {
    if ExistsByEmailOrMobile(users, email, None) {
      var i :| 0 <= i < |users| && MatchesEmailOrMobile(users[i], email, None);
      assert users[i].email == email;
    }
  }

  /** Every row the corrected check matches, the check as written matches too. */
  lemma CorrectedWithinAsWritten(users: seq<User>, email: string, mobile: Option<string>)
    ensures ExistsByEmailOrMobile(users, email, mobile) ==> ExistsByEmailOrMobileAsWritten(users, email, mobile)
  {
    if ExistsByEmailOrMobile(users, email, mobile) {
      var i :| 0 <= i < |users| && MatchesEmailOrMobile(users[i], email, mobile);
      assert MatchesEmailOrMobileAsWritten(users[i], email, mobile);
    }
  }

  /** When a mobile is given the two checks agree: the defect lies only in the
      registration without a mobile. */
  lemma AsWrittenAgreesWhenMobileGiven(users: seq<User>, email: string, mobile: string)
    ensures ExistsByEmailOrMobileAsWritten(users, email, Some(mobile))
            == ExistsByEmailOrMobile(users, email, Some(mobile))
  {
    CorrectedWithinAsWritten(users, email, Some(mobile));
    if ExistsByEmailOrMobileAsWritten(users, email, Some(mobile)) {
      var i :| 0 <= i < |users| && MatchesEmailOrMobileAsWritten(users[i], email, Some(mobile));
      assert MatchesEmailOrMobile(users[i], email, Some(mobile));
    }
  }

  /** The corrected check refuses exactly the rows the unique columns would refuse:
      appending a row to a table with unique keys keeps them unique if and only if
      the check finds no row with its email or its (non-null) mobile. */
  lemma UniqueKeysAfterAppend(users: seq<User>, u: User)
    requires UniqueKeys(users)
    ensures UniqueKeys(users + [u]) <==> !ExistsByEmailOrMobile(users, u.email, u.mobile)
  {
    var t := users + [u];
    if ExistsByEmailOrMobile(users, u.email, u.mobile) {
      var i :| 0 <= i < |users| && MatchesEmailOrMobile(users[i], u.email, u.mobile);
      assert t[i] == users[i] && t[|users|] == u;
      if users[i].email == u.email {
        assert t[i].email == t[|users|].email;
      } else {
        assert t[i].mobile.Some? && t[i].mobile == t[|users|].mobile;
      }
    } else {
      forall i, j | 0 <= i < j < |t| ensures t[i].email != t[j].email {
        if j == |users| {
          assert !MatchesEmailOrMobile(users[i], u.email, u.mobile);
        }
      }
      forall i, j | 0 <= i < j < |t| && t[i].mobile.Some? ensures t[i].mobile != t[j].mobile {
        if j == |users| {
          assert !MatchesEmailOrMobile(users[i], u.email, u.mobile);
        }
      }
    }
  }

  // ---------------------------------------------------------------------------
  // The repository's save and count

  /** Why `saveAndFlush` would refuse a new row: bean validation of its declared
      constraints first, then the unique columns. */
  function InsertFault(users: seq<User>, u: User): (f: Option<Fault>)
    ensures f.None? <==> MeetsFieldConstraints(u) && !ExistsByEmailOrMobile(users, u.email, u.mobile)
  {
    if !MeetsFieldConstraints(u) then Some(ConstraintViolation)
    else if ExistsByEmailOrMobile(users, u.email, u.mobile) then Some(DuplicateKey)
    else None
  }

  /** The `users` table behind `UserRepository`. */
  class UserStore {
    var users: seq<User>

    constructor (initial: seq<User>)
      ensures users == initial
    {
      users := initial;
    }

    /** `save`: appends the row and returns it, or throws and leaves the table as it was. */
    method Save(u: User) returns (r: Result<User, Fault>)
      modifies this
      ensures InsertFault(old(users), u).None? ==> r == Ok(u) && users == old(users) + [u]
      ensures InsertFault(old(users), u).Some? ==> r == Err(InsertFault(old(users), u).value) && users == old(users)
      ensures UniqueKeys(old(users)) ==> UniqueKeys(users)
    {
      var f := InsertFault(users, u);
      if UniqueKeys(users) {
        UniqueKeysAfterAppend(users, u);
      }
      if f.None? {
        users := users + [u];
        r := Ok(u);
      } else {
        r := Err(f.value);
      }
    }

    /** `count`: the number of rows. */
    method Count() returns (n: nat)
      ensures n == |users|
    {
      n := |users|;
    }
  }

  // ---------------------------------------------------------------------------
  // getProfile

  const UserNotFound := "User not found"

  function NotActiveMessage(email: string): string {
    "User with email: " + email + " is not active or locked or blocked. Please contact the administrator."
  }

  function DeletedMessage(email: string): string {
    "User with email: " + email + " is deleted. Please contact the administrator."
  }

  /** The row `getProfile` shows, re-read from the table by the principal's user name,
      or the exception it throws. A missing authentication dereferences null; a
      missing principal and a user name with no row both give "User not found". */
  function ProfileUser(users: seq<User>, auth: Option<Authentication>): (r: Result<User, Fault>)
    ensures auth.None? ==> r == Err(NullDereference)
    ensures auth.Some? && auth.value.principal.None? ==> r == Err(Runtime(UserNotFound))
    ensures auth.Some? && auth.value.principal.Some? ==>
      var found := FindFirstByEmail(users, GetUsername(auth.value.principal.value));
      && (found.None? ==> r == Err(Runtime(UserNotFound)))
      && (found.Some? && (!found.value.active || found.value.locked || found.value.blocked) ==>
            r == Err(Runtime(NotActiveMessage(found.value.email))))
      && (found.Some? && found.value.active && !found.value.locked && !found.value.blocked && found.value.deleted ==>
            r == Err(Runtime(DeletedMessage(found.value.email))))
      && (found.Some? && InGoodStanding(found.value) ==> r == Ok(found.value))
    ensures r.Ok? ==> r.value in users && InGoodStanding(r.value)
  {
    match auth
    case None => Err(NullDereference)
    case Some(a) =>
      match a.principal
      case None => Err(Runtime(UserNotFound))
      case Some(p) =>
        match FindFirstByEmail(users, GetUsername(p))
        case None => Err(Runtime(UserNotFound))
        case Some(u) =>
          if !u.active || u.locked || u.blocked then Err(Runtime(NotActiveMessage(u.email)))
          else if u.deleted then Err(Runtime(DeletedMessage(u.email)))
          else Ok(u)
  }

  /** The profile is decided by the row stored now, not by the copy inside the
      principal: with unique emails, a principal whose user name is that of row `i`
      sees row `i` exactly when row `i` is in good standing, whatever the principal's
      own copy says. */
  lemma ProfileReadsCurrentRow(users: seq<User>, p: UserPrincipal, i: nat)
    requires UniqueKeys(users) && i < |users| && GetUsername(p) == users[i].email
    ensures ProfileUser(users, Some(Authentication(Some(p), None, p.authorities))).Ok?
            <==> InGoodStanding(users[i])
    ensures InGoodStanding(users[i]) ==>
            ProfileUser(users, Some(Authentication(Some(p), None, p.authorities))) == Ok(users[i])
  {
    FindFirstByEmailUnique(users, i);
  }

  /** `getProfile`: the view of the current row of the authenticated user. */
  method GetProfile(users: seq<User>, auth: Option<Authentication>) returns (r: Result<UserDTO, Fault>)
    ensures ProfileUser(users, auth).Err? ==> r == Err(ProfileUser(users, auth).error)
    ensures ProfileUser(users, auth).Ok? ==>
      && r.Ok? && fresh(r.value)
      && r.value.Fields() == Sanitised(DtoOf(ProfileUser(users, auth).value))
      && IsView(r.value.Fields())
  {
    var found := ProfileUser(users, auth);
    if found.Err? {
      r := Err(found.error);
    } else {
      var dto := new UserDTO.FromUser(found.value);
      var view := dto.ToViewDTO();
      r := Ok(view);
    }
  }
}
