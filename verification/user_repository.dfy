/** `UserRepository`, the implementation of `IRepository<User>`, over an
    in-memory store instead of a database context. Every mutating operation
    stages its change and commits it at once; the commit's reported change
    count is a parameter (`reported`), and a commit that reports failure
    leaves the store as it was. */
module UserRepository {
  import opened Wrappers
  import opened Text
  import opened Models

  /** What a committed mutation reports, and the store after it. */
  datatype Saved = Saved(ok: bool, store: Store)

  /** Exceptions a mutation can raise instead of returning. */
  datatype RepoError =
    | NullMember   // the member passed in is null
    | RowNotFound  // no stored row has the member's key

  /** Listed in ascending order of user name. */
  predicate SortedByName(s: seq<User>) {
    forall i, j :: 0 <= i < j < |s| ==> OrdinalLe(s[i].userName, s[j].userName)
  }

  /** Inserts `u` before the first user whose name is not below its own. */
  function InsertByName(u: User, s: seq<User>): (r: seq<User>)
    requires SortedByName(s)
    ensures SortedByName(r)
    ensures multiset(r) == multiset(s) + multiset{u}
    ensures |r| == |s| + 1
  {
    if s == [] then [u]
    else if OrdinalLe(u.userName, s[0].userName) then
      assert forall j :: 0 <= j < |s| ==> OrdinalLe(u.userName, s[j].userName) by {
        forall j | 0 <= j < |s| ensures OrdinalLe(u.userName, s[j].userName) {
          if j > 0 {
            OrdinalLeTransitive(u.userName, s[0].userName, s[j].userName);
          }
        }
      }
      [u] + s
    else
      var rest := InsertByName(u, s[1..]);
      assert s == [s[0]] + s[1..];
      assert forall j :: 0 <= j < |rest| ==> OrdinalLe(s[0].userName, rest[j].userName) by {
        forall j | 0 <= j < |rest| ensures OrdinalLe(s[0].userName, rest[j].userName) {
          assert rest[j] in multiset(rest);
          if rest[j] == u {
            OrdinalLeTotal(u.userName, s[0].userName);
          } else {
            assert rest[j] in multiset(s[1..]);
            var k :| 0 <= k < |s[1..]| && s[1..][k] == rest[j];
            assert s[k + 1] == rest[j];
          }
        }
      }
      [s[0]] + rest
  }

  /** Insertion sort by user name. */
  function SortByName(s: seq<User>): (r: seq<User>)
    ensures SortedByName(r)
    ensures multiset(r) == multiset(s)
    ensures |r| == |s|
  {
    if s == [] then []
    else
      assert s == [s[0]] + s[1..];
      InsertByName(s[0], SortByName(s[1..]))
  }

  /** `GetAllMembersAsync`: every stored user, in ascending order of name. */
  function GetAllMembers(s: Store): (r: seq<User>)
    ensures SortedByName(r)
    ensures multiset(r) == multiset(s)
    ensures |r| == |s|
  {
    SortByName(s)
  }

  /** `GetMemberAsync`: the first user whose key is `id`, or null. */
  function GetMember(s: seq<User>, id: int): (r: Option<User>)
    ensures r.None? <==> !HasId(s, id)
    ensures r.Some? ==> exists i :: 0 <= i < |s| && s[i] == r.value && r.value.id == id
                                   && (forall j :: 0 <= j < i ==> s[j].id != id)
  {
    if s == [] then None
    else if s[0].id == id then Some(s[0])
    else
      var r := GetMember(s[1..], id);
      assert r.Some? ==> exists i :: 0 < i < |s| && s[i] == r.value && r.value.id == id
                                     && (forall j :: 0 <= j < i ==> s[j].id != id) by {
        if r.Some? {
          var i :| 0 <= i < |s[1..]| && s[1..][i] == r.value && r.value.id == id
                   && (forall j :: 0 <= j < i ==> s[1..][j].id != id);
          assert forall j :: 1 <= j < i + 1 ==> s[j].id == s[1..][j - 1].id;
          assert s[i + 1] == r.value;
        }
      }
      r
  }

  /** Keys are unique, so looking up a stored record's key finds that record. */
  lemma GetMemberOfStored(s: Store, k: int)
    requires 0 <= k < |s|
    ensures GetMember(s, s[k].id) == Some(s[k])
  {
    var r := GetMember(s, s[k].id);
    assert HasId(s, s[k].id);
    var i :| 0 <= i < |s| && s[i] == r.value && r.value.id == s[k].id;
    assert i == k;
  }

  /** `MemberExistsAsync(string)`: some stored name matches `name`, ignoring
      case and surrounding white space. */
  function MemberExistsByName(s: seq<User>, name: string): (r: bool)
    ensures r <==> NameTaken(s, name)
  {
    if s == [] then false
    else
      NameTakenCons(s, name);
      SameName(s[0].userName, name) || MemberExistsByName(s[1..], name)
  }

  /** The name check ignores the letter case and the surrounding white space
      of the name asked about. */
  lemma NameCheckIgnoresCaseAndPadding(s: seq<User>, name: string, ws1: string, ws2: string)
    requires AllWhiteSpace(ws1) && AllWhiteSpace(ws2)
    ensures MemberExistsByName(s, ws1 + name + ws2) == MemberExistsByName(s, name)
    ensures MemberExistsByName(s, ToUpper(name)) == MemberExistsByName(s, name)
    ensures MemberExistsByName(s, ToLower(name)) == MemberExistsByName(s, name)
  {
    NormalizeIgnoresPadding(ws1, name, ws2);
    NormalizeIgnoresCase(name);
    assert forall x :: SameName(x, ws1 + name + ws2) == SameName(x, name);
    assert forall x :: SameName(x, ToUpper(name)) == SameName(x, name);
    assert forall x :: SameName(x, ToLower(name)) == SameName(x, name);
  }

  /** `MemberExistsAsync(int)`: a scan for key `id`, agreeing with `GetMember`. */
  function MemberExistsById(s: seq<User>, id: int): (r: bool)
    ensures r <==> HasId(s, id)
    ensures r <==> GetMember(s, id).Some?
  {
    if s == [] then false
    else
      HasIdCons(s, id);
      s[0].id == id || MemberExistsById(s[1..], id)
  }

  lemma NameTakenCons(s: seq<User>, name: string)
    requires s != []
    ensures NameTaken(s, name) <==> SameName(s[0].userName, name) || NameTaken(s[1..], name)
  {
    if NameTaken(s[1..], name) {
      var i :| 0 <= i < |s[1..]| && SameName(s[1..][i].userName, name);
      assert s[i + 1] == s[1..][i];
    }
    if NameTaken(s, name) && !SameName(s[0].userName, name) {
      var i :| 0 <= i < |s| && SameName(s[i].userName, name);
      assert s[1..][i - 1] == s[i];
    }
  }

  lemma HasIdCons(s: seq<User>, id: int)
    requires s != []
    ensures HasId(s, id) <==> s[0].id == id || HasId(s[1..], id)
  {
    if HasId(s[1..], id) {
      var i :| 0 <= i < |s[1..]| && s[1..][i].id == id;
      assert s[i + 1] == s[1..][i];
    }
    if HasId(s, id) && s[0].id != id {
      var i :| 0 <= i < |s| && s[i].id == id;
      assert s[1..][i - 1] == s[i];
    }
  }

  /** `SaveSync`: the commit succeeded when it reports a non-negative count. */
  function SaveSync(reported: int32): bool {
    reported >= 0
  }

  /** Every mutation reports exactly what `SaveSync` makes of the commit's
      count: success for any non-negative count, zero included. */
  lemma CommitFollowsSaveSync(s: Store, member: User, newId: int32, reported: int32)
    requires !HasId(s, newId)
    ensures SaveSync(reported) <==> reported >= 0
    ensures SaveSync(0)
    ensures CreateMember(s, Some(member), newId, reported).value.ok == SaveSync(reported)
    ensures HasId(s, member.id) ==> UpdateMember(s, Some(member), reported).value.ok == SaveSync(reported)
    ensures HasId(s, member.id) ==> DeleteMember(s, Some(member), reported).value.ok == SaveSync(reported)
  {
  }

  /** Commits `staged` when the commit succeeds, keeps `s` otherwise. */
  function Commit(s: Store, staged: Store, reported: int32): Saved {
    if SaveSync(reported) then Saved(true, staged) else Saved(false, s)
  }

  /** The store without the record whose key is `id`. */
  function RemoveId(s: Store, id: int): (r: Store)
    ensures forall u :: u in r <==> u in s && u.id != id
    ensures !HasId(r, id)
    ensures HasId(s, id) ==> |r| == |s| - 1
    ensures !HasId(s, id) ==> r == s
  {
    if s == [] then []
    else
      HasIdCons(s, id);
      var rest := RemoveId(s[1..], id);
      if s[0].id == id then
        assert !HasId(s[1..], id);
        rest
      else
        PrependKeepsUnique(s[0], rest, s[1..]);
        HasIdCons([s[0]] + rest, id);
        assert ([s[0]] + rest)[1..] == rest;
        assert s == [s[0]] + s[1..];
        [s[0]] + rest
  }

  /** Prepending a record whose key no record of `tail` (drawn from `from`) uses. */
  lemma PrependKeepsUnique(u: User, tail: Store, from: seq<User>)
    requires forall v :: v in tail ==> v in from
    requires forall v :: v in from ==> v.id != u.id
    ensures UniqueIds([u] + tail)
  {
    var t := [u] + tail;
    forall i, j | 0 <= i < j < |t| ensures t[i].id != t[j].id {
      if i == 0 {
        assert t[j] == tail[j - 1];
        assert t[j] in from;
      } else {
        assert t[i] == tail[i - 1] && t[j] == tail[j - 1];
      }
    }
  }

  /** The store with the record keyed `member.id` replaced by `member`. */
  function ReplaceById(s: Store, member: User): (r: Store)
    ensures |r| == |s|
    ensures HasId(s, member.id) ==> GetMember(r, member.id) == Some(member)
    ensures forall k :: k != member.id ==> GetMember(r, k) == GetMember(s, k)
    ensures !HasId(s, member.id) ==> r == s
  {
    var r := seq(|s|, i requires 0 <= i < |s| => if s[i].id == member.id then member else s[i]);
    assert UniqueIds(r) by {
      assert forall i :: 0 <= i < |s| ==> r[i].id == s[i].id;
    }
    assert HasId(s, member.id) ==> GetMember(r, member.id) == Some(member) by {
      if HasId(s, member.id) {
        var j :| 0 <= j < |s| && s[j].id == member.id;
        GetMemberOfStored(r, j);
      }
    }
    assert forall k :: k != member.id ==> GetMember(r, k) == GetMember(s, k) by {
      forall k | k != member.id ensures GetMember(r, k) == GetMember(s, k) {
        if HasId(s, k) {
          var j :| 0 <= j < |s| && s[j].id == k;
          GetMemberOfStored(r, j);
          GetMemberOfStored(s, j);
        } else {
          assert !HasId(r, k);
        }
      }
    }
    r
  }

  /** `CreateMemberAsync`: adds `member` under the key the store assigns
      (`newId`, one not in use) and commits. */
  function CreateMember(s: Store, member: Option<User>, newId: int32, reported: int32)
    : (r: Result<Saved, RepoError>)
    requires !HasId(s, newId)
    ensures r.Failure? <==> member.None?
    ensures r.Failure? ==> r.error == NullMember
    ensures r.Success? ==> (r.value.ok <==> reported >= 0)
    ensures r.Success? && !r.value.ok ==> r.value.store == s
    ensures r.Success? && r.value.ok ==>
              && multiset(r.value.store) == multiset(s) + multiset{member.value.(id := newId)}
              && NameTaken(r.value.store, member.value.userName)
              && GetMember(r.value.store, newId) == Some(member.value.(id := newId))
  {
    match member
    case None => Failure(NullMember)
    case Some(m) =>
      var added := m.(id := newId);
      var staged := s + [added];
      assert UniqueIds(staged);
      GetMemberOfStored(staged, |s|);
      Success(Commit(s, staged, reported))
  }

  /** `UpdateMemberAsync`: replaces the whole record keyed `member.id` and commits. */
  function UpdateMember(s: Store, member: Option<User>, reported: int32)
    : (r: Result<Saved, RepoError>)
    ensures member.None? ==> r == Failure(NullMember)
    ensures member.Some? ==> (r == Failure(RowNotFound) <==> !HasId(s, member.value.id))
    ensures member.Some? ==> (r.Success? <==> HasId(s, member.value.id))
    ensures r.Success? ==> (r.value.ok <==> reported >= 0)
    ensures r.Success? && !r.value.ok ==> r.value.store == s
    ensures r.Success? && r.value.ok ==>
              && |r.value.store| == |s|
              && GetMember(r.value.store, member.value.id) == Some(member.value)
              && forall i :: 0 <= i < |s| && s[i].id != member.value.id ==> r.value.store[i] == s[i]
  {
    match member
    case None => Failure(NullMember)
    case Some(m) =>
      if !MemberExistsById(s, m.id) then Failure(RowNotFound)
      else
        var staged := ReplaceById(s, m);
        var i :| 0 <= i < |s| && s[i].id == m.id;
        GetMemberOfStored(staged, i);
        Success(Commit(s, staged, reported))
  }

  /** `DeleteMemberAsync`: removes the record keyed `member.id` and commits. */
  function DeleteMember(s: Store, member: Option<User>, reported: int32)
    : (r: Result<Saved, RepoError>)
    ensures member.None? ==> r == Failure(NullMember)
    ensures member.Some? ==> (r == Failure(RowNotFound) <==> !HasId(s, member.value.id))
    ensures member.Some? ==> (r.Success? <==> HasId(s, member.value.id))
    ensures r.Success? ==> (r.value.ok <==> reported >= 0)
    ensures r.Success? && !r.value.ok ==> r.value.store == s
    ensures r.Success? && r.value.ok ==>
              && !HasId(r.value.store, member.value.id)
              && |r.value.store| == |s| - 1
              && (forall u :: u in s && u.id != member.value.id ==> u in r.value.store)
              && (forall u :: u in r.value.store ==> u in s)
  {
    match member
    case None => Failure(NullMember)
    case Some(m) =>
      if !MemberExistsById(s, m.id) then Failure(RowNotFound)
      else Success(Commit(s, RemoveId(s, m.id), reported))
  }
}
