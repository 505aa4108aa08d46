/** `UserDetailsServiceImpl`: the lookup Spring Security calls to load a principal. */
module UserDetailsServices {
  import opened Wrappers
  import opened Errors
  import opened Users
  import opened Principals
  import opened UserServices

  /** `loadUserByUsername`: the principal built from the first row whose email is the
      user name, or the `RuntimeException` of `getUserByEmail`. */
  function LoadUserByUsername(users: seq<User>, username: string): (r: Result<UserPrincipal, Fault>)
    ensures r.Ok? <==> exists i :: 0 <= i < |users| && users[i].email == username
    ensures r.Ok? ==> exists k :: IsFirstWithEmail(users, username, k) && r.value.user == users[k]
    ensures r.Ok? ==> GetUsername(r.value) == username
    ensures r.Ok? ==> r.value.authorities == [RoleName(r.value.user.role)]
    ensures r.Err? ==> r.error == Runtime(UserNotFoundMessage(username))
  {
    match GetUserByEmail(users, username)
    case Ok(u) => Ok(Build(u))
    case Err(f) => Err(f)
  }

  /** With unique emails, loading by a row's email gives that very row, whatever its
      account flags say: loading does not check the account's standing. */
  lemma LoadFindsStoredRow(users: seq<User>, i: nat)
    requires UniqueKeys(users) && i < |users|
    ensures LoadUserByUsername(users, users[i].email) == Ok(Build(users[i]))
  {
    FindFirstByEmailUnique(users, i);
  }
}
