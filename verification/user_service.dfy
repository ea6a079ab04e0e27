/** The service layer: name validation, uniqueness on create, and the
    create / update / delete / lookup operations over the `users` table.
    Each operation is a pure function from the table (and its arguments) to
    its result and the table it leaves behind. */
module UserService {
  import opened Wrappers
  import opened UserEntity
  import JavaString
  import UserRepository

  /** Which uniqueness check rejected a create. */
  datatype Field = Name | Nickname

  /** The `IllegalArgumentException`s the service throws, by cause. */
  datatype Error = Validation | Conflict(field: Field) | NotFound

  /** A service call's outcome together with the table after the call. */
  datatype Step<T> = Step(result: Result<T, Error>, users: Store)

  /** The name check create and update run first: a null name, or one that is
      empty after `trim()`, is rejected. */
  function ValidateUser(u: User): (r: Outcome<Error>)
    ensures r.Fail? <==> !HasValidName(u)
    ensures r.Fail? ==> r.error == Validation
  {
    if u.name.None? || JavaString.IsBlank(u.name.value) then Fail(Validation) else Pass
  }

  /** Every stored row, each exactly once. */
  function GetAllUsers(m: Store): (r: seq<Record>)
    ensures |r| == |m|
    ensures forall rec :: rec in r ==> rec.id in m && rec.user == m[rec.id]
    ensures forall id :: id in m ==> Record(id, m[id]) in r
    ensures forall i, j :: 0 <= i < j < |r| ==> r[i].id != r[j].id
  {
    UserRepository.FindAll(m)
  }

  /** The row with this id, if there is one; absence is not an error. */
  function GetUserById(m: Store, id: Id): (r: Option<Record>)
    ensures r.Some? <==> id in m
    ensures r.Some? ==> r.value == Record(id, m[id])
  {
    UserRepository.FindById(m, id)
  }

  /** Validate, then reject a taken name, then reject a taken non-null
      nickname, then insert under a fresh id. */
  function CreateUser(m: Store, u: User): (r: Step<Record>)
    ensures r.result.Failure? ==> r.users == m
    ensures r.result == Failure(Validation) <==> !HasValidName(u)
    ensures r.result == Failure(Conflict(Name)) <==>
      HasValidName(u) && UserRepository.ExistsByName(m, u.name.value)
    ensures r.result == Failure(Conflict(Nickname)) <==>
      && HasValidName(u)
      && !UserRepository.ExistsByName(m, u.name.value)
      && u.nickname.Some? && UserRepository.ExistsByNickname(m, u.nickname.value)
    ensures r.result != Failure(NotFound)
    ensures r.result.Success? ==>
      && r.result.value.id !in m
      && r.result.value.user == u
      && r.users.Keys == m.Keys + {r.result.value.id}
      && r.users[r.result.value.id] == u
      && (forall id :: id in m ==> r.users[id] == m[id])
  {
    match ValidateUser(u)
    case Fail(e) => Step(Failure(e), m)
    case Pass =>
      if UserRepository.ExistsByName(m, u.name.value) then
        Step(Failure(Conflict(Name)), m)
      else if u.nickname.Some? && UserRepository.ExistsByNickname(m, u.nickname.value) then
        Step(Failure(Conflict(Nickname)), m)
      else
        var id := UserRepository.NextId(m);
        Step(Success(Record(id, u)), m[id := u])
  }

  /** Validate, then require the id to exist, then overwrite that row's name
      and nickname. No uniqueness check is made. */
  function UpdateUser(m: Store, id: Id, d: User): (r: Step<Record>)
    ensures r.result.Failure? ==> r.users == m
    ensures r.result == Failure(Validation) <==> !HasValidName(d)
    ensures r.result == Failure(NotFound) <==> HasValidName(d) && id !in m
    ensures r.result.Success? <==> HasValidName(d) && id in m
    ensures r.result.Success? ==>
      && r.result.value == Record(id, d)
      && r.users.Keys == m.Keys
      && r.users[id] == d
      && (forall k :: k in m && k != id ==> r.users[k] == m[k])
  {
    match ValidateUser(d)
    case Fail(e) => Step(Failure(e), m)
    case Pass =>
      match UserRepository.FindById(m, id)
      case None => Step(Failure(NotFound), m)
      case Some(rec) => Step(Success(Record(id, d)), m[id := d])
  }

  /** Require the id to exist, then remove that row. */
  function DeleteUser(m: Store, id: Id): (r: Step<()>)
    ensures r.result.Success? <==> id in m
    ensures r.result.Failure? ==> r.result.error == NotFound && r.users == m
    ensures r.result.Success? ==>
      && r.users.Keys == m.Keys - {id}
      && (forall k :: k in r.users ==> r.users[k] == m[k])
  {
    if id !in m then Step(Failure(NotFound), m) else Step(Success(()), m - {id})
  }

  /** A successful create keeps the store invariant. */
  lemma CreatePreservesInvariant(m: Store, u: User)
    requires Invariant(m)
    ensures Invariant(CreateUser(m, u).users)
  {
  }

  /** After a successful create, looking up the new id returns the user that
      was sent, under that id. */
  lemma CreateThenGet(m: Store, u: User)
    requires CreateUser(m, u).result.Success?
    ensures var r := CreateUser(m, u);
      GetUserById(r.users, r.result.value.id) == Some(Record(r.result.value.id, u))
  {
  }

  /** Once a name is stored, creating another user with the same name fails
      with a name conflict and leaves the table unchanged, whatever the
      second user's nickname. */
  lemma CreateSameNameTwice(m: Store, u: User, v: User)
    requires CreateUser(m, u).result.Success?
    requires v.name == u.name
    ensures var m' := CreateUser(m, u).users;
      CreateUser(m', v) == Step(Failure(Conflict(Name)), m')
  {
  }

  /** Once a non-null nickname is stored, creating another user with a valid
      name and the same nickname fails with a conflict: a name conflict if its
      name is taken too, otherwise a nickname conflict. */
  lemma CreateSameNicknameTwice(m: Store, u: User, v: User)
    requires CreateUser(m, u).result.Success?
    requires HasValidName(v)
    requires v.nickname.Some? && v.nickname == u.nickname
    ensures var m' := CreateUser(m, u).users;
      && CreateUser(m', v).users == m'
      && (CreateUser(m', v).result == Failure(Conflict(Name)) ||
          CreateUser(m', v).result == Failure(Conflict(Nickname)))
  {
  }

  /** A user without a nickname is never rejected for its nickname. */
  lemma NullNicknameNeverConflicts(m: Store, u: User)
    requires u.nickname.None?
    ensures CreateUser(m, u).result != Failure(Conflict(Nickname))
  {
  }

  /** Update keeps every stored name valid. */
  lemma UpdatePreservesValidNames(m: Store, id: Id, d: User)
    requires NamesValid(m)
    ensures NamesValid(UpdateUser(m, id, d).users)
  {
  }

  /** Update does not keep uniqueness: renaming one of two users to the other's
      name succeeds and leaves two rows with the same name. */
  lemma UpdateCanBreakUniqueness()
    ensures var m := map[1 := User(Some("alice"), None), 2 := User(Some("bob"), None)];
      var r := UpdateUser(m, 2, User(Some("alice"), None));
      && Invariant(m)
      && r.result.Success?
      && !NamesUnique(r.users)
  {
    var m := map[1 := User(Some("alice"), None), 2 := User(Some("bob"), None)];
    assert !JavaString.IsTrimmable("alice"[0]);
    assert !JavaString.IsTrimmable("bob"[0]);
    assert HasValidName(m[1]) && HasValidName(m[2]);
    assert "alice" != "bob" by { assert "alice"[0] != "bob"[0]; }
    var r := UpdateUser(m, 2, User(Some("alice"), None));
    assert r.users[1].name == r.users[2].name;
  }

  /** After an update succeeds, looking the id up returns the new row. */
  lemma UpdateThenGet(m: Store, id: Id, d: User)
    requires UpdateUser(m, id, d).result.Success?
    ensures GetUserById(UpdateUser(m, id, d).users, id) == Some(Record(id, d))
  {
  }

  /** After a delete succeeds, the id is gone. */
  lemma DeleteThenGet(m: Store, id: Id)
    requires DeleteUser(m, id).result.Success?
    ensures GetUserById(DeleteUser(m, id).users, id) == None
  {
  }

  /** Delete keeps the store invariant. */
  lemma DeletePreservesInvariant(m: Store, id: Id)
    requires Invariant(m)
    ensures Invariant(DeleteUser(m, id).users)
  {
  }
}
