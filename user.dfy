/** The User entity (src/domain/entities/user.ts): an immutable record of an
    id, an email, a name and two timestamps. Updates build a new record from
    a copy of the old one; equality compares ids only. The clock (`new
    Date()`) is the parameter `now`, a time in milliseconds, and the UUID
    generator is the parameter `random` (see module UserIds). */
module Users {
  import opened Wrappers
  import opened Common
  import Emails
  import UserNames
  import UserIds

  /** A point in time, in milliseconds. */
  type Timestamp = int

  /** `UserProps`. */
  datatype UserProps = UserProps(
    id: UserIds.UserId,
    email: Emails.Email,
    name: UserNames.UserName,
    createdAt: Timestamp,
    updatedAt: Timestamp)

  /** A User wraps its props; nothing can reassign them. */
  datatype User = User(props: UserProps) {

    function Id(): UserIds.UserId { props.id }
    function GetEmail(): Emails.Email { props.email }
    function GetName(): UserNames.UserName { props.name }
    function CreatedAt(): Timestamp { props.createdAt }
    function UpdatedAt(): Timestamp { props.updatedAt }

    /** `updateEmail`: a copy with the new email and `updatedAt` set to `now`. */
    function UpdateEmail(newEmail: Emails.Email, now: Timestamp): (r: User)
      ensures r.GetEmail() == newEmail && r.UpdatedAt() == now
      ensures r.Id() == Id() && r.GetName() == GetName() && r.CreatedAt() == CreatedAt()
    {
      User(props.(email := newEmail, updatedAt := now))
    }

    /** `updateName`: a copy with the new name and `updatedAt` set to `now`. */
    function UpdateName(newName: UserNames.UserName, now: Timestamp): (r: User)
      ensures r.GetName() == newName && r.UpdatedAt() == now
      ensures r.Id() == Id() && r.GetEmail() == GetEmail() && r.CreatedAt() == CreatedAt()
    {
      User(props.(name := newName, updatedAt := now))
    }

    /** `equals`: the other entity is a User and its id `equals` this id. */
    predicate Equals(other: EntityRef) {
      other.UserEntity? && StringEquals(Id(), other.user.Id())
    }

    /** `toJSON`: the wrapped strings of the value objects and the two
        timestamps. */
    function ToJson(): (r: UserJson)
      ensures r.id == Id().GetValue() && r.email == GetEmail().GetValue() && r.name == GetName().GetValue()
      ensures r.createdAt == CreatedAt() && r.updatedAt == UpdatedAt()
    {
      UserJson(props.id.GetValue(), props.email.GetValue(), props.name.GetValue(), props.createdAt, props.updatedAt)
    }
  }

  /** An `Entity<UserId>`: the argument of `equals`. It is a User, or some
      other implementation of the interface, of which only the id is known. */
  datatype EntityRef = UserEntity(user: User) | OtherEntity(otherId: UserIds.UserId) {
    function Id(): UserIds.UserId {
      match this
      case UserEntity(u) => u.Id()
      case OtherEntity(i) => i
    }
  }

  /** The object `toJSON` returns; timestamps are left as numbers. */
  datatype UserJson = UserJson(id: string, email: string, name: string, createdAt: Timestamp, updatedAt: Timestamp)

  /** `create`: both timestamps are `now`; the id is the one given, or else
      a generated one. */
  function Create(email: Emails.Email, name: UserNames.UserName, id: Option<UserIds.UserId>,
                  now: Timestamp, random: UserIds.RandomBytes): (r: User)
    ensures r.GetEmail() == email && r.GetName() == name
    ensures r.CreatedAt() == now && r.UpdatedAt() == now
    ensures id.Some? ==> r.Id() == id.value
    ensures id.None? ==> r.Id() == UserIds.Generate(random)
  {
    User(UserProps(if id.Some? then id.value else UserIds.Generate(random), email, name, now, now))
  }

  /** `reconstitute`: the props are kept as given. */
  function Reconstitute(p: UserProps): (r: User)
    ensures r.Id() == p.id && r.GetEmail() == p.email && r.GetName() == p.name
    ensures r.CreatedAt() == p.createdAt && r.UpdatedAt() == p.updatedAt
  {
    User(p)
  }

  // ---------------------------------------------------------------------
  // Properties

  /** The props a user is reconstituted from are the props it holds. */
  lemma ReconstituteRoundTrip(u: User)
    ensures Reconstitute(u.props) == u
    ensures Reconstitute(UserProps(u.Id(), u.GetEmail(), u.GetName(), u.CreatedAt(), u.UpdatedAt())) == u
  {
  }

  /** `equals` holds exactly when the other entity is a User with the same id
      string; email, name and timestamps play no part. */
  lemma EqualsIffSameId(u: User, other: EntityRef)
    ensures u.Equals(other) <==> other.UserEntity? && other.user.Id().value == u.Id().value
  {
    if other.UserEntity? {
      StringEqualsIffSameValue(u.Id(), other.user.Id());
    }
  }

  /** An entity that is not a User is never `equals` to a user, even with the
      same id. */
  lemma OtherEntityNeverEquals(u: User)
    ensures !u.Equals(OtherEntity(u.Id()))
  {
  }

  /** `equals` is an equivalence relation on users. */
  lemma EqualsIsEquivalence(a: User, b: User, c: User)
    ensures a.Equals(UserEntity(a))
    ensures a.Equals(UserEntity(b)) <==> b.Equals(UserEntity(a))
    ensures a.Equals(UserEntity(b)) && b.Equals(UserEntity(c)) ==> a.Equals(UserEntity(c))
  {
    EqualsIffSameId(a, UserEntity(b));
    EqualsIffSameId(b, UserEntity(a));
    EqualsIffSameId(b, UserEntity(c));
    EqualsIffSameId(a, UserEntity(c));
    EqualsIffSameId(a, UserEntity(a));
  }

  /** Updating the email or the name keeps the identity: the updated user is
      `equals` to the original, in both directions. */
  lemma UpdatesKeepIdentity(u: User, e: Emails.Email, n: UserNames.UserName, now: Timestamp)
    ensures u.UpdateEmail(e, now).Equals(UserEntity(u)) && u.Equals(UserEntity(u.UpdateEmail(e, now)))
    ensures u.UpdateName(n, now).Equals(UserEntity(u)) && u.Equals(UserEntity(u.UpdateName(n, now)))
  {
    EqualsIffSameId(u, UserEntity(u));
  }

  /** Two users built with the same id are `equals` whatever their other
      fields, and users built with different ids are not. */
  lemma CreatedUsersEqualIffSameId(e1: Emails.Email, n1: UserNames.UserName, e2: Emails.Email, n2: UserNames.UserName,
                                   id1: UserIds.UserId, id2: UserIds.UserId,
                                   t1: Timestamp, t2: Timestamp, random: UserIds.RandomBytes)
    ensures Create(e1, n1, Some(id1), t1, random).Equals(UserEntity(Create(e2, n2, Some(id2), t2, random)))
            <==> id1 == id2
  {
    EqualsIffSameId(Create(e1, n1, Some(id1), t1, random), UserEntity(Create(e2, n2, Some(id2), t2, random)));
  }

  /** `toJSON` loses nothing: users with the same JSON are the same user. */
  lemma ToJsonInjective(a: User, b: User)
    ensures a.ToJson() == b.ToJson() <==> a == b
  {
  }
}
