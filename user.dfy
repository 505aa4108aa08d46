/** The `users` table row (`User`, with the id and audit timestamps it inherits) and
    the role enumeration. */
module Users {
  import opened Wrappers
  import opened JavaText

  /** `UserRole`. */
  datatype Role = RoleAdmin | RoleUser

  /** The enum constant's name, which is also its `toString`. */
  function RoleName(r: Role): (name: string)
    ensures |name| > 5 && name[..5] == "ROLE_"
  {
    match r
    case RoleAdmin => "ROLE_ADMIN"
    case RoleUser => "ROLE_USER"
  }

  /** Distinct roles have distinct names, so an authority label names one role. */
  lemma RoleNameInjective(r: Role, q: Role)
    requires RoleName(r) == RoleName(q)
    ensures r == q
  {
  }

  /** A user row. Timestamps are abstract instants. The email is never null in this
      model: both ways of creating a user validate it first. */
  datatype User = User(
    id: Option<int>,
    firstName: string,
    lastName: string,
    email: string,
    mobile: Option<string>,
    password: string,
    role: Role,
    active: bool,
    locked: bool,
    blocked: bool,
    deleted: bool,
    createdAt: Option<int>,
    updatedAt: Option<int>)

  /** `User.builder()...build()` with the given fields set: the four account flags take
      their `@Builder.Default` values, and id and timestamps are left for the
      persistence layer. */
  function Built(firstName: string, lastName: string, email: string, mobile: Option<string>,
                 password: string, role: Role): (u: User)
    ensures u.active && !u.locked && !u.blocked && !u.deleted
    ensures u.id.None? && u.createdAt.None? && u.updatedAt.None?
    ensures u.firstName == firstName && u.lastName == lastName && u.email == email
    ensures u.mobile == mobile && u.password == password && u.role == role
  {
    User(None, firstName, lastName, email, mobile, password, role,
         true, false, false, false, None, None)
  }

  /** `@NotBlank` together with `@Size(min, max)`. Hibernate's `@NotBlank` validator
      asks for a non-empty `trim()`, which strips the characters at or below U+0020;
      it is not `StringUtils.hasText`. */
  predicate NotBlankSized(s: string, min: nat, max: nat) {
    Trim(s) != [] && min <= Utf16Length(s) <= max
  }

  /** The trim test is not `hasText`: three ideographic spaces have no text, yet they
      pass `@NotBlank`. */
  lemma IdeographicSpacesAreNotBlank()
    ensures NotBlankSized("\U{3000}\U{3000}\U{3000}", 3, 50) && !HasText("\U{3000}\U{3000}\U{3000}")
  {
    var ideo := "\U{3000}\U{3000}\U{3000}";
    assert forall i :: 0 <= i < |ideo| ==> ideo[i] == '\U{3000}';
    TrimKeepsPrintable(ideo);
    Utf16LengthOfBmp(ideo);
  }

  /** The other way round: three NULs have text, yet they fail `@NotBlank`. */
  lemma NulsAreBlank()
    ensures !NotBlankSized("\0\0\0", 3, 50) && HasText("\0\0\0")
  {
    var nuls := "\0\0\0";
    assert HasText(nuls) by {
      assert !IsWhitespace(nuls[0]);
    }
    assert Trim(nuls) == [] by {
      assert forall i :: 0 <= i < |nuls| ==> nuls[i] <= ' ';
      TrimOfControlsIsEmpty(nuls);
    }
  }

  /** The declared bean constraints of a row: names non-blank of 3..50 characters,
      stored password non-blank of 6..120 characters. */
  predicate MeetsFieldConstraints(u: User) {
    && NotBlankSized(u.firstName, 3, 50)
    && NotBlankSized(u.lastName, 3, 50)
    && NotBlankSized(u.password, 6, 120)
  }

  /** The two `unique` columns: no email twice, and no non-null mobile twice (SQL
      unique constraints admit any number of nulls). */
  predicate UniqueKeys(users: seq<User>) {
    && (forall i, j :: 0 <= i < j < |users| ==> users[i].email != users[j].email)
    && (forall i, j :: 0 <= i < j < |users| && users[i].mobile.Some? ==> users[i].mobile != users[j].mobile)
  }
}
