/** `InitUser`: seeds the administrator into an empty table at start-up. */
module InitUsers {
  import opened Wrappers
  import opened Errors
  import opened JavaText
  import opened Users
  import opened UserServices
  import opened Validation

  const InvalidPasswordMessage := "Invalid password! Please provide a password between 6 and 120 characters."

  /** The administrator row: fixed names, no mobile, the encoded password, the admin
      role and the builder's default flags. */
  function AdminUser(email: string, password: string, encode: string -> string): (u: User)
    ensures u.firstName == "Admin" && u.lastName == "User" && u.email == email && u.mobile.None?
    ensures u.password == encode(password) && u.role == RoleAdmin
    ensures u.active && !u.locked && !u.blocked && !u.deleted
  {
    Built("Admin", "User", email, None, encode(password), RoleAdmin)
  }

  /** The table after `initAdminUser`, or the exception it throws. A table that
      already has rows is left alone without any check; otherwise the email is checked
      before the password length, and the admin row is saved. */
  function SeedAdmin(users: seq<User>, email: string, password: string, encode: string -> string)
    : (r: Result<seq<User>, Fault>)
    ensures |users| > 0 ==> r == Ok(users)
    ensures |users| == 0 && !CheckEmailValidation(Some(email)) ==> r == Err(Runtime(InvalidEmailMessage))
    ensures |users| == 0 && CheckEmailValidation(Some(email)) && !(6 <= Utf16Length(password) <= 120) ==>
      r == Err(Runtime(InvalidPasswordMessage))
    ensures |users| == 0 && r.Ok? ==> r.value == [AdminUser(email, password, encode)]
    ensures |users| == 0 && r.Ok? ==> CheckEmailValidation(Some(email)) && 6 <= Utf16Length(password) <= 120
  {
    if |users| > 0 then Ok(users)
    else if !CheckEmailValidation(Some(email)) then Err(Runtime(InvalidEmailMessage))
    else if Utf16Length(password) < 6 || Utf16Length(password) > 120 then Err(Runtime(InvalidPasswordMessage))
    else
      var admin := AdminUser(email, password, encode);
      match InsertFault(users, admin)
      case Some(f) => Err(f)
      case None => Ok([admin])
  }

  /** Seeding is idempotent: a second run leaves the table as the first one left it. */
  lemma SeedAdminIdempotent(users: seq<User>, email: string, password: string, encode: string -> string)
    requires SeedAdmin(users, email, password, encode).Ok?
    ensures var once := SeedAdmin(users, email, password, encode).value;
      SeedAdmin(once, email, password, encode) == Ok(once)
  {
    var once := SeedAdmin(users, email, password, encode).value;
    assert |users| == 0 ==> once == [AdminUser(email, password, encode)];
  }

  /** Seeding keeps emails and non-null mobiles unique: the table is either left as
      it was or holds the admin row alone. */
  lemma SeedAdminKeepsKeysUnique(users: seq<User>, email: string, password: string, encode: string -> string)
    requires UniqueKeys(users) && SeedAdmin(users, email, password, encode).Ok?
    ensures UniqueKeys(SeedAdmin(users, email, password, encode).value)
  {
    if |users| == 0 {
      var seeded := SeedAdmin(users, email, password, encode).value;
      assert |seeded| == 1;
    }
  }

  /** On an empty table, a valid email and password always give the admin row when
      the encoder's output is non-blank of 6 to 120 characters (a bcrypt hash has 60):
      its fixed names meet their constraints and nothing can clash. */
  lemma SeedAdminSucceeds(email: string, password: string, encode: string -> string)
    requires CheckEmailValidation(Some(email)) && 6 <= Utf16Length(password) <= 120
    requires NotBlankSized(encode(password), 6, 120)
    ensures SeedAdmin([], email, password, encode) == Ok([AdminUser(email, password, encode)])
  {
    AdminNamesMeetConstraints();
    var admin := AdminUser(email, password, encode);
    assert MeetsFieldConstraints(admin);
    assert !ExistsByEmailOrMobile([], admin.email, admin.mobile);
  }

  /** "Admin" and "User" are non-blank names of 3 to 50 characters. */
  lemma AdminNamesMeetConstraints()
    ensures NotBlankSized("Admin", 3, 50) && NotBlankSized("User", 3, 50)
  {
    TrimKeepsPrintable("Admin");
    TrimKeepsPrintable("User");
    Utf16LengthOfBmp("Admin");
    Utf16LengthOfBmp("User");
  }

  /** `initAdminUser` over the table. */
  method InitAdminUser(store: UserStore, email: string, password: string, encode: string -> string)
    returns (r: Outcome<Fault>)
    modifies store
    ensures var s := SeedAdmin(old(store.users), email, password, encode);
      && (s.Ok? ==> r == Pass && store.users == s.value)
      && (s.Err? ==> r == Fail(s.error) && store.users == old(store.users))
  {
    var n := store.Count();
    if n > 0 {
      return Pass;
    }
    if !CheckEmailValidation(Some(email)) {
      return Fail(Runtime(InvalidEmailMessage));
    }
    if Utf16Length(password) < 6 || Utf16Length(password) > 120 {
      return Fail(Runtime(InvalidPasswordMessage));
    }
    var admin := AdminUser(email, password, encode);
    var saved := store.Save(admin);
    if saved.Err? {
      return Fail(saved.error);
    }
    r := Pass;
  }
}
