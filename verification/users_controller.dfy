/** `UsersController`: each action maps a request (route id, optional JSON
    payload) and the store to a reply and the store afterwards. The store's
    id generator (`newId`) and the commit's reported change count
    (`reported`) are parameters. */
module UsersController {
  import opened Wrappers
  import opened Models
  import opened UserRepository

  const Ok := 200
  const Created := 201
  const NoContent := 204
  const BadRequest := 400
  const NotFound := 404
  const InternalServerError := 500

  /** Response bodies; `ModelState` is the validation-error dictionary, whose
      message text is not modelled. */
  datatype Body = NoBody | ModelState | OneUser(user: User) | UserList(users: seq<User>)

  /** A status code with a body, or an exception escaping the action. */
  datatype Reply = Reply(status: int, body: Body) | Threw(error: RepoError)

  datatype Step = Step(reply: Reply, store: Store)

  /** `GET users`: always 200 with the users ordered by name. */
  function GetAllUsers(s: Store): (r: Step)
    ensures r.store == s
    ensures r.reply.Reply? && r.reply.status == Ok && r.reply.body.UserList?
    ensures SortedByName(r.reply.body.users)
    ensures multiset(r.reply.body.users) == multiset(s)
  {
    Step(Reply(Ok, UserList(GetAllMembers(s))), s)
  }

  /** `POST users`: 400 without a payload, 404 when the name is taken, 500
      when the commit fails, otherwise 201 echoing the payload. */
  function CreateUser(s: Store, user: Option<User>, newId: int32, reported: int32): (r: Step)
    requires !HasId(s, newId)
    ensures user.None? ==> r == Step(Reply(BadRequest, ModelState), s)
    ensures user.Some? && NameTaken(s, user.value.userName) ==>
              r == Step(Reply(NotFound, ModelState), s)
    ensures user.Some? && !NameTaken(s, user.value.userName) && reported < 0 ==>
              r == Step(Reply(InternalServerError, ModelState), s)
    ensures user.Some? && !NameTaken(s, user.value.userName) && reported >= 0 ==>
              && r.reply == Reply(Created, OneUser(user.value))
              && multiset(r.store) == multiset(s) + multiset{user.value.(id := newId)}
  {
    match user
    case None => Step(Reply(BadRequest, ModelState), s)
    case Some(u) =>
      if MemberExistsByName(s, u.userName) then
        Step(Reply(NotFound, ModelState), s)
      else
        match CreateMember(s, user, newId, reported)
        case Failure(e) => Step(Threw(e), s)
        case Success(saved) =>
          if !saved.ok then Step(Reply(InternalServerError, ModelState), saved.store)
          else Step(Reply(Created, OneUser(u)), saved.store)
  }

  /** `GET users/{userId}`: 200 with the user keyed `userId`, or 404. */
  function GetUser(s: Store, userId: int32): (r: Step)
    ensures r.store == s
    ensures !HasId(s, userId) ==> r.reply == Reply(NotFound, NoBody)
    ensures HasId(s, userId) ==>
              exists i :: 0 <= i < |s| && s[i].id == userId && r.reply == Reply(Ok, OneUser(s[i]))
  {
    match GetMember(s, userId)
    case None => Step(Reply(NotFound, NoBody), s)
    case Some(u) => Step(Reply(Ok, OneUser(u)), s)
  }

  /** `PUT users/{userId}`: 400 only for a missing payload with a
      non-positive id, 404 when `userId` is not stored, otherwise the update
      runs and the reply is 204 whatever the commit reports. The record
      replaced is the one keyed by the payload's own id. */
  function UpdateUser(s: Store, userId: int32, user: Option<User>, reported: int32): (r: Step)
    ensures user.None? && userId <= 0 ==> r == Step(Reply(BadRequest, ModelState), s)
    ensures !(user.None? && userId <= 0) && !HasId(s, userId) ==>
              r == Step(Reply(NotFound, NoBody), s)
    ensures user.None? && userId > 0 && HasId(s, userId) ==> r == Step(Threw(NullMember), s)
    ensures user.Some? && HasId(s, userId) && !HasId(s, user.value.id) ==>
              r == Step(Threw(RowNotFound), s)
    ensures user.Some? && HasId(s, userId) && HasId(s, user.value.id) ==>
              && r.reply == Reply(NoContent, NoBody)
              && (reported < 0 ==> r.store == s)
              && (reported >= 0 ==>
                    && |r.store| == |s|
                    && GetMember(r.store, user.value.id) == user
                    && forall i :: 0 <= i < |s| && s[i].id != user.value.id ==> r.store[i] == s[i])
  {
    if user.None? && userId <= 0 then
      Step(Reply(BadRequest, ModelState), s)
    else if !MemberExistsById(s, userId) then
      Step(Reply(NotFound, NoBody), s)
    else
      match UpdateMember(s, user, reported)
      case Failure(e) => Step(Threw(e), s)
      case Success(saved) => Step(Reply(NoContent, NoBody), saved.store)
  }

  /** `DELETE users/{userId}`: 404 when `userId` is not stored, 500 when the
      commit fails, otherwise 204 with that record gone. */
  function DeleteUser(s: Store, userId: int32, reported: int32): (r: Step)
    ensures !HasId(s, userId) ==> r == Step(Reply(NotFound, NoBody), s)
    ensures HasId(s, userId) && reported < 0 ==> r == Step(Reply(InternalServerError, ModelState), s)
    ensures HasId(s, userId) && reported >= 0 ==>
              && r.reply == Reply(NoContent, NoBody)
              && !HasId(r.store, userId)
              && |r.store| == |s| - 1
              && (forall u :: u in s && u.id != userId ==> u in r.store)
              && (forall u :: u in r.store ==> u in s)
  {
    if !MemberExistsById(s, userId) then
      Step(Reply(NotFound, NoBody), s)
    else
      var user := GetMember(s, userId);
      match DeleteMember(s, user, reported)
      case Failure(e) => Step(Threw(e), s)
      case Success(saved) =>
        if !saved.ok then Step(Reply(InternalServerError, ModelState), saved.store)
        else Step(Reply(NoContent, NoBody), saved.store)
  }

  /** A user created with 201 is then found under the key the store gave it,
      with every other field as posted. */
  lemma CreateThenGet(s: Store, u: User, newId: int32, reported: int32)
    requires !HasId(s, newId) && !NameTaken(s, u.userName) && reported >= 0
    ensures GetUser(CreateUser(s, Some(u), newId, reported).store, newId).reply
            == Reply(Ok, OneUser(u.(id := newId)))
  {
    var s' := CreateUser(s, Some(u), newId, reported).store;
    var added := u.(id := newId);
    assert added in multiset(s');
    var k :| 0 <= k < |s'| && s'[k] == added;
    assert HasId(s', newId);
    var i :| 0 <= i < |s'| && s'[i].id == newId
             && GetUser(s', newId).reply == Reply(Ok, OneUser(s'[i]));
    assert i == k;
  }

  /** Once a name has been created, posting it again, in any letter case or
      padding that normalizes alike, is answered 404 and changes nothing. */
  lemma CreateTwiceRejected(s: Store, u: User, newId: int32, reported: int32,
                            v: User, nextId: int32, reported2: int32)
    requires !HasId(s, newId) && !NameTaken(s, u.userName) && reported >= 0
    requires SameName(v.userName, u.userName)
    requires !HasId(s, nextId) && nextId != newId
    ensures var s' := CreateUser(s, Some(u), newId, reported).store;
            CreateUser(s', Some(v), nextId, reported2) == Step(Reply(NotFound, ModelState), s')
  {
    var s' := CreateUser(s, Some(u), newId, reported).store;
    var added := u.(id := newId);
    assert added in multiset(s');
    var k :| 0 <= k < |s'| && s'[k] == added;
    assert SameName(s'[k].userName, v.userName);
    assert !HasId(s', nextId) by {
      forall i | 0 <= i < |s'| ensures s'[i].id != nextId {
        assert s'[i] in multiset(s');
        if s'[i] != added {
          assert s'[i] in multiset(s);
          var j :| 0 <= j < |s| && s[j] == s'[i];
        }
      }
    }
  }

  /** After a 204 delete, getting the same id answers 404. */
  lemma DeleteThenGet(s: Store, userId: int32, reported: int32)
    requires DeleteUser(s, userId, reported).reply == Reply(NoContent, NoBody)
    ensures GetUser(DeleteUser(s, userId, reported).store, userId).reply == Reply(NotFound, NoBody)
  {
  }

  /** Update's reply never depends on what the commit reports. */
  lemma UpdateIgnoresCommitResult(s: Store, userId: int32, user: Option<User>,
                                  reported1: int32, reported2: int32)
    ensures UpdateUser(s, userId, user, reported1).reply == UpdateUser(s, userId, user, reported2).reply
  {
  }

  /** When the route id and the payload's id differ, update replaces the
      record keyed by the payload and leaves the route's record alone. */
  lemma UpdateTargetsPayloadKey(s: Store, userId: int32, u: User, reported: int32)
    requires HasId(s, userId) && HasId(s, u.id) && userId != u.id && reported >= 0
    ensures var s' := UpdateUser(s, userId, Some(u), reported).store;
            GetMember(s', userId) == GetMember(s, userId) && GetMember(s', u.id) == Some(u)
  {
    var s' := UpdateUser(s, userId, Some(u), reported).store;
    var k :| 0 <= k < |s| && s[k].id == userId;
    assert s'[k] == s[k];
    GetMemberOfStored(s, k);
    GetMemberOfStored(s', k);
  }
}
