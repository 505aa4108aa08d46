/** `UserPrincipal`, the `UserDetails` wrapped around a row, and the `Authentication`
    that the security context holds. */
module Principals {
  import opened Wrappers
  import opened Users

  /** A principal: the row it was built from and its granted authority labels. */
  datatype UserPrincipal = UserPrincipal(user: User, authorities: seq<string>)

  /** `UsernamePasswordAuthenticationToken`: principal, credentials and authorities. A
      token built by the filter has no credentials. */
  datatype Authentication = Authentication(
    principal: Option<UserPrincipal>,
    credentials: Option<string>,
    authorities: seq<string>)

  /** `UserPrincipal.build`: one authority, the name of the row's role. */
  function Build(u: User): (p: UserPrincipal)
    ensures p.user == u
    ensures |p.authorities| == 1 && |p.authorities[0]| > 5 && p.authorities[0][..5] == "ROLE_"
  {
    UserPrincipal(u, [RoleName(u.role)])
  }

  /** A built principal's user name is the row's email and its password the row's
      stored hash. */
  lemma BuildCredentials(u: User)
    ensures GetUsername(Build(u)) == u.email && GetPassword(Build(u)) == u.password
  {
  }

  /** The authorities of a built principal name its role and no other. */
  lemma BuildGrantsExactlyItsRole(u: User, r: Role)
    ensures RoleName(r) in Build(u).authorities <==> r == u.role
  {
    if RoleName(r) in Build(u).authorities {
      RoleNameInjective(r, u.role);
    }
  }

  /** `getUsername`: the email is the user name. */
  function GetUsername(p: UserPrincipal): string {
    p.user.email
  }

  /** `getPassword`: the stored (encoded) password. */
  function GetPassword(p: UserPrincipal): string {
    p.user.password
  }

  /** `isAccountNonExpired`: accounts never expire. */
  predicate IsAccountNonExpired(p: UserPrincipal) {
    true
  }

  /** `isAccountNonLocked`: neither blocked, locked nor deleted. */
  predicate IsAccountNonLocked(p: UserPrincipal) {
    !p.user.blocked && !p.user.locked && !p.user.deleted
  }

  /** `isCredentialsNonExpired`: not blocked, not locked, active, not deleted. */
  predicate IsCredentialsNonExpired(p: UserPrincipal) {
    !p.user.blocked && !p.user.locked && p.user.active && !p.user.deleted
  }

  /** `isEnabled`: active and not deleted. */
  predicate IsEnabled(p: UserPrincipal) {
    p.user.active && !p.user.deleted
  }

  /** A row in good standing: what every status check of the core asks for. */
  predicate InGoodStanding(u: User) {
    u.active && !u.locked && !u.blocked && !u.deleted
  }

  /** Accounts never expire; the lock check ignores the active flag; the credentials
      check is exactly the conjunction of the lock and enable checks; and all four
      checks pass together exactly for a row in good standing. */
  lemma StatusChecksAgree(u: User)
    ensures IsAccountNonExpired(Build(u))
    ensures IsAccountNonLocked(Build(u)) <==> IsAccountNonLocked(Build(u.(active := !u.active)))
    ensures IsCredentialsNonExpired(Build(u)) <==> IsAccountNonLocked(Build(u)) && IsEnabled(Build(u))
    ensures InGoodStanding(u) <==>
      && IsAccountNonExpired(Build(u)) && IsAccountNonLocked(Build(u))
      && IsCredentialsNonExpired(Build(u)) && IsEnabled(Build(u))
  {
  }

  /** A freshly built row passes every status check. */
  lemma BuiltUserInGoodStanding(firstName: string, lastName: string, email: string,
                                mobile: Option<string>, password: string, role: Role)
    ensures InGoodStanding(Built(firstName, lastName, email, mobile, password, role))
    ensures IsCredentialsNonExpired(Build(Built(firstName, lastName, email, mobile, password, role)))
  {
  }
}
