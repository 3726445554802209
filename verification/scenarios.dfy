/** The controller's unit tests and a create/re-create/delete walk-through,
    replayed against the model with concrete stores. */
module Scenarios {
  import opened Wrappers
  import opened Text
  import opened Models
  import opened UserRepository
  import opened UsersController

  const FakeUser := User(1, "TexmoTest", "passTest", "isaacTest", "iniguezTest", 24)

  /** A fresh user is created with 201. */
  lemma ShouldCreateUser()
    ensures CreateUser([], Some(FakeUser), 1, 1).reply == Reply(Created, OneUser(FakeUser))
  {
    assert !NameTaken([], FakeUser.userName);
  }

  /** A null payload gives 400, a taken name 404, a failed commit 500. */
  lemma ShouldFailCreatingUser(s: Store, newId: int32, reported: int32)
    requires !HasId(s, newId) && !HasId([FakeUser], newId)
    ensures CreateUser(s, None, newId, reported).reply.status == BadRequest
    ensures CreateUser([FakeUser], Some(FakeUser), newId, reported).reply.status == NotFound
    ensures CreateUser([], Some(FakeUser), newId, -1).reply.status == InternalServerError
  {
    assert SameName([FakeUser][0].userName, FakeUser.userName);
    assert !NameTaken([], FakeUser.userName);
  }

  /** Creating into an empty store leaves exactly the created record. */
  lemma FirstCreateStoresOne(u: User, newId: int32, reported: int32)
    requires reported >= 0
    ensures CreateUser([], Some(u), newId, reported)
            == Step(Reply(Created, OneUser(u)), [u.(id := newId)])
  {
    assert !NameTaken([], u.userName);
    var t := CreateUser([], Some(u), newId, reported).store;
    assert multiset(t) == multiset{u.(id := newId)};
    assert |t| == 1;
    assert t[0] in multiset(t);
  }

  /** Posting a name already stored is answered 404. */
  lemma SecondCreateRejected(u: User, reported: int32)
    ensures CreateUser([u.(id := 1)], Some(u), 2, reported)
            == Step(Reply(NotFound, ModelState), [u.(id := 1)])
  {
    var t: Store := [u.(id := 1)];
    assert SameName(t[0].userName, u.userName);
    assert !HasId(t, 2) by {
      assert forall i :: 0 <= i < |t| ==> t[i].id == 1;
    }
  }

  /** Deleting a key that is not stored is answered 404. */
  lemma DeleteUnknownRejected(u: User, reported: int32)
    ensures DeleteUser([u.(id := 1)], 2, reported) == Step(Reply(NotFound, NoBody), [u.(id := 1)])
  {
    var t: Store := [u.(id := 1)];
    assert !HasId(t, 2) by {
      assert forall i :: 0 <= i < |t| ==> t[i].id == 1;
    }
  }

  /** Into an empty store: the first post is answered 201, the same post
      again 404, and deleting an id that was never created 404. */
  lemma CreateAgainThenDeleteUnknown(u: User, reported: int32)
    requires reported >= 0
    ensures var first := CreateUser([], Some(u), 1, reported);
            && first.reply == Reply(Created, OneUser(u))
            && CreateUser(first.store, Some(u), 2, reported) == Step(Reply(NotFound, ModelState), first.store)
            && DeleteUser(first.store, 2, reported) == Step(Reply(NotFound, NoBody), first.store)
  {
    FirstCreateStoresOne(u, 1, reported);
    SecondCreateRejected(u, reported);
    DeleteUnknownRejected(u, reported);
  }

  /** The walk-through with user "texmo". */
  lemma TexmoLifecycle()
    ensures var texmo := User(0, "texmo", "p", "a", "b", 24);
            var first := CreateUser([], Some(texmo), 1, 1);
            && first.reply == Reply(Created, OneUser(texmo))
            && CreateUser(first.store, Some(texmo), 2, 1) == Step(Reply(NotFound, ModelState), first.store)
            && DeleteUser(first.store, 2, 1) == Step(Reply(NotFound, NoBody), first.store)
  {
    CreateAgainThenDeleteUnknown(User(0, "texmo", "p", "a", "b", 24), 1);
  }

  lemma BobLowered()
    ensures ToLower("Bob") == "bob"
  {
    var lower := ToLower("Bob");
    assert |lower| == 3 && lower[0] == 'b' && lower[1] == 'o' && lower[2] == 'b';
  }

  lemma BobRaised()
    ensures ToUpper("bob") == "BOB"
  {
    var upper := ToUpper("bob");
    assert |upper| == 3 && upper[0] == 'B' && upper[1] == 'O' && upper[2] == 'B';
  }

  lemma PaddedBobIsBob(s: seq<User>)
    ensures MemberExistsByName(s, " bob ") == MemberExistsByName(s, "bob")
  {
    NameCheckIgnoresCaseAndPadding(s, "bob", " ", " ");
    assert " " + "bob" + " " == " bob ";
  }

  lemma ShoutedBobIsBob(s: seq<User>)
    ensures MemberExistsByName(s, "BOB") == MemberExistsByName(s, "bob")
  {
    BobRaised();
    NameCheckIgnoresCaseAndPadding(s, "bob", "", "");
  }

  lemma LoweredBobIsBob(s: seq<User>)
    ensures MemberExistsByName(s, "bob") == MemberExistsByName(s, "Bob")
  {
    BobLowered();
    NameCheckIgnoresCaseAndPadding(s, "Bob", "", "");
  }

  /** A store holding the single user "Bob". */
  const BobStore: seq<User> := [User(7, "Bob", "pw", "Bob", "Smith", 30)]

  /** With "Bob" stored, the name check holds for "Bob", " bob " and "BOB". */
  lemma BobIsFoundInAnyCase()
    ensures MemberExistsByName(BobStore, "Bob")
    ensures MemberExistsByName(BobStore, " bob ")
    ensures MemberExistsByName(BobStore, "BOB")
  {
    assert SameName(BobStore[0].userName, "Bob");
    LoweredBobIsBob(BobStore);
    PaddedBobIsBob(BobStore);
    ShoutedBobIsBob(BobStore);
  }
}
