/** The `User` entity and the store invariant the registry is meant to keep. */
module UserEntity {
  import opened Wrappers
  import JavaString

  /** A database id (a Java `Long`; width not modelled). */
  type Id = int

  /** The columns of a user row besides its id. Either may be null. */
  datatype User = User(name: Option<string>, nickname: Option<string>)

  /** A user as the service returns it: the row together with its id. */
  datatype Record = Record(id: Id, user: User)

  /** The `users` table: id to row. */
  type Store = map<Id, User>

  /** The name is present and not blank after trimming. */
  ghost predicate HasValidName(u: User) {
    u.name.Some? && JavaString.NonBlank(u.name.value)
  }

  ghost predicate NamesValid(m: Store) {
    forall id :: id in m ==> HasValidName(m[id])
  }

  /** No two rows share a name. */
  ghost predicate NamesUnique(m: Store) {
    forall a, b :: a in m && b in m && m[a].name == m[b].name ==> a == b
  }

  /** No two rows share a non-null nickname; any number of rows may have none. */
  ghost predicate NicknamesUnique(m: Store) {
    forall a, b :: a in m && b in m && m[a].nickname.Some? && m[a].nickname == m[b].nickname ==> a == b
  }

  /** The data-model invariant: every row has a valid, unique name, and
      non-null nicknames are unique. */
  ghost predicate Invariant(m: Store) {
    NamesValid(m) && NamesUnique(m) && NicknamesUnique(m)
  }
}
