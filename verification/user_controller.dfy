/** The HTTP boundary under `/api/users`: each endpoint calls the service and
    turns its outcome into a status code and an optional body. */
module UserController {
  import opened Wrappers
  import opened UserEntity
  import JavaString
  import UserRepository
  import S = UserService

  const OK: int := 200
  const BAD_REQUEST: int := 400
  const NOT_FOUND: int := 404

  /** A `ResponseEntity`: status code and body; `None` is an empty body. */
  datatype Response<T> = Response(status: int, body: Option<T>)

  /** A response together with the table the request left behind. */
  datatype Exchange<T> = Exchange(response: Response<T>, users: Store)

  /** 200 with the service's value on success; the given status with no body
      on any service exception. */
  function Respond<T>(r: Result<T, S.Error>, onError: int): (resp: Response<T>)
    ensures r.Success? ==> resp == Response(OK, Some(r.value))
    ensures r.Failure? ==> resp == Response(onError, None)
  {
    match r
    case Success(v) => Response(OK, Some(v))
    case Failure(_) => Response(onError, None)
  }

  /** GET /api/users: always 200, with every stored row once. */
  function GetAllUsers(m: Store): (resp: Response<seq<Record>>)
    ensures resp.status == OK
    ensures resp.body.Some?
    ensures |resp.body.value| == |m|
    ensures forall id :: id in m ==> Record(id, m[id]) in resp.body.value
    ensures forall rec :: rec in resp.body.value ==> rec.id in m && rec.user == m[rec.id]
  {
    Response(OK, Some(S.GetAllUsers(m)))
  }

  /** GET /api/users/{id}: 200 with the row when present, else 404 with no body. */
  function GetUserById(m: Store, id: Id): (resp: Response<Record>)
    ensures id in m ==> resp == Response(OK, Some(Record(id, m[id])))
    ensures id !in m ==> resp == Response(NOT_FOUND, None)
  {
    match S.GetUserById(m, id)
    case Some(rec) => Response(OK, Some(rec))
    case None => Response(NOT_FOUND, None)
  }

  /** POST /api/users: 200 with the saved row, or 400 with no body for any
      rejection (blank name, taken name, taken nickname). */
  function CreateUser(m: Store, u: User): (x: Exchange<Record>)
    ensures x.response.status == OK || x.response.status == BAD_REQUEST
    ensures x.response.status == BAD_REQUEST <==>
      || !HasValidName(u)
      || UserRepository.ExistsByName(m, u.name.value)
      || (u.nickname.Some? && UserRepository.ExistsByNickname(m, u.nickname.value))
    ensures x.response.status == BAD_REQUEST ==> x.response.body.None? && x.users == m
    ensures x.response.status == OK ==>
      && x.response.body.Some?
      && x.response.body.value.id !in m
      && x.response.body.value.user == u
      && x.users == m[x.response.body.value.id := u]
  {
    var step := S.CreateUser(m, u);
    Exchange(Respond(step.result, BAD_REQUEST), step.users)
  }

  /** PUT /api/users/{id}: 200 with the updated row, or 404 with no body for
      any rejection, a blank name included; 400 is never returned. */
  function UpdateUser(m: Store, id: Id, d: User): (x: Exchange<Record>)
    ensures x.response.status == OK || x.response.status == NOT_FOUND
    ensures x.response.status == NOT_FOUND <==> !HasValidName(d) || id !in m
    ensures x.response.status == NOT_FOUND ==> x.response.body.None? && x.users == m
    ensures x.response.status == OK ==>
      x.response.body == Some(Record(id, d)) && x.users == m[id := d]
  {
    var step := S.UpdateUser(m, id, d);
    Exchange(Respond(step.result, NOT_FOUND), step.users)
  }

  /** DELETE /api/users/{id}: 200 with an empty body when the row existed and
      is now gone, else 404. */
  function DeleteUser(m: Store, id: Id): (x: Exchange<()>)
    ensures x.response.body.None?
    ensures x.response.status == OK <==> id in m
    ensures x.response.status == NOT_FOUND <==> id !in m
    ensures x.users == m - {id}
  {
    var step := S.DeleteUser(m, id);
    match step.result
    case Success(_) => Exchange(Response(OK, None), step.users)
    case Failure(_) => Exchange(Response(NOT_FOUND, None), step.users)
  }

  /** A blank name on update yields 404 whether or not the id exists, the
      same status a missing id yields. */
  lemma UpdateBlankNameIsNotFound(m: Store, id: Id, d: User)
    requires d.name.None? || JavaString.IsBlank(d.name.value)
    ensures UpdateUser(m, id, d) == Exchange(Response(NOT_FOUND, None), m)
  {
  }
}
