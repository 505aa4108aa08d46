/** `UserDTO`: a mutable bean copied from a `User` and then stripped for display. */
module UserDtos {
  import opened Wrappers
  import opened Users

  /** The thirteen properties of a `UserDTO` at one moment (every one may be null). */
  datatype DtoFields = DtoFields(
    id: Option<int>,
    firstName: Option<string>,
    lastName: Option<string>,
    email: Option<string>,
    mobile: Option<string>,
    password: Option<string>,
    role: Option<Role>,
    isActive: Option<bool>,
    isLocked: Option<bool>,
    isBlocked: Option<bool>,
    isDeleted: Option<bool>,
    createdAt: Option<int>,
    updatedAt: Option<int>)

  /** The identifying, displayable part of a DTO: id, names, email and mobile. */
  predicate SameIdentity(f: DtoFields, g: DtoFields) {
    f.id == g.id && f.firstName == g.firstName && f.lastName == g.lastName
    && f.email == g.email && f.mobile == g.mobile
  }

  /** A DTO fit for display: password, role, the four flags and both timestamps null. */
  predicate IsView(f: DtoFields) {
    && f.password.None? && f.role.None?
    && f.isActive.None? && f.isLocked.None? && f.isBlocked.None? && f.isDeleted.None?
    && f.createdAt.None? && f.updatedAt.None?
  }

  /** What `User.toDTO` builds from a row. */
  function DtoOf(u: User): (f: DtoFields)
    ensures f.password.None?
  {
    DtoFields(u.id, Some(u.firstName), Some(u.lastName), Some(u.email), u.mobile,
              None, Some(u.role), Some(u.active), Some(u.locked), Some(u.blocked), Some(u.deleted),
              u.createdAt, u.updatedAt)
  }

  /** What `toViewDTO` leaves in a DTO. */
  function Sanitised(f: DtoFields): (g: DtoFields)
    ensures IsView(g) && SameIdentity(f, g)
  {
    f.(password := None, role := None, isActive := None, isLocked := None, isBlocked := None,
       isDeleted := None, createdAt := None, updatedAt := None)
  }

  /** Stripping is idempotent: a view is left as it is. */
  lemma SanitisedIdempotent(f: DtoFields)
    ensures Sanitised(Sanitised(f)) == Sanitised(f)
  {
  }

  /** The view of a row keeps exactly its id, names, email and mobile. */
  lemma ViewOfUser(u: User)
    ensures Sanitised(DtoOf(u)) ==
      DtoFields(u.id, Some(u.firstName), Some(u.lastName), Some(u.email), u.mobile,
                None, None, None, None, None, None, None, None)
  {
  }

  class UserDTO {
    var id: Option<int>
    var firstName: Option<string>
    var lastName: Option<string>
    var email: Option<string>
    var mobile: Option<string>
    var password: Option<string>
    var role: Option<Role>
    var isActive: Option<bool>
    var isLocked: Option<bool>
    var isBlocked: Option<bool>
    var isDeleted: Option<bool>
    var createdAt: Option<int>
    var updatedAt: Option<int>

    /** The current values of all properties. */
    function Fields(): DtoFields
      reads this
    {
      DtoFields(id, firstName, lastName, email, mobile, password, role,
                isActive, isLocked, isBlocked, isDeleted, createdAt, updatedAt)
    }

    /** `User.toDTO`: a new DTO holding a copy of every column except the password. */
    constructor FromUser(u: User)
      ensures Fields() == DtoOf(u)
      ensures id == u.id && firstName == Some(u.firstName) && lastName == Some(u.lastName)
      ensures email == Some(u.email) && mobile == u.mobile && role == Some(u.role)
      ensures isActive == Some(u.active) && isLocked == Some(u.locked)
      ensures isBlocked == Some(u.blocked) && isDeleted == Some(u.deleted)
      ensures createdAt == u.createdAt && updatedAt == u.updatedAt
      ensures password.None?
    {
      id, firstName, lastName, email, mobile := u.id, Some(u.firstName), Some(u.lastName), Some(u.email), u.mobile;
      password, role := None, Some(u.role);
      isActive, isLocked, isBlocked, isDeleted := Some(u.active), Some(u.locked), Some(u.blocked), Some(u.deleted);
      createdAt, updatedAt := u.createdAt, u.updatedAt;
    }

    /** `toViewDTO`: nulls the eight sensitive properties of this very object, keeps
        the other five, and returns the receiver itself. */
    method ToViewDTO() returns (r: UserDTO)
      modifies this
      ensures r == this
      ensures Fields() == Sanitised(old(Fields()))
      ensures IsView(Fields()) && SameIdentity(old(Fields()), Fields())
    {
      password, role := None, None;
      isActive, isLocked, isBlocked, isDeleted := None, None, None, None;
      createdAt, updatedAt := None, None;
      r := this;
    }
  }
}
