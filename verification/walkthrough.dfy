/** A request sequence against an empty table, followed end to end through
    the controller: create, a rejected duplicate, an update, and a delete
    that succeeds once and then reports the id missing. */
module Walkthrough {
  import opened Wrappers
  import opened UserEntity
  import C = UserController

  lemma CreateUpdateDeleteSequence()
    ensures var alice := User(Some("alice"), Some("al"));
      var x1 := C.CreateUser(map[], alice);
      var x2 := C.CreateUser(x1.users, User(Some("alice"), Some("bob")));
      var x3 := C.UpdateUser(x2.users, 1, User(Some("alice2"), Some("al")));
      var x4 := C.DeleteUser(x3.users, 1);
      var x5 := C.DeleteUser(x4.users, 1);
      && x1.response == C.Response(C.OK, Some(Record(1, alice)))
      && x2.response == C.Response(C.BAD_REQUEST, None)
      && x3.response == C.Response(C.OK, Some(Record(1, User(Some("alice2"), Some("al")))))
      && x4.response.status == C.OK
      && x5.response.status == C.NOT_FOUND
      && x5.users == map[]
  {
  }
}
