/** The `User` entity and the store of users it lives in. */
module Models {
  import opened Text

  /** C#'s 32-bit `int`. */
  type int32 = x: int | -0x8000_0000 <= x < 0x8000_0000

  /** A user record; `id` is the entity key. */
  datatype User = User(
    id: int32,
    userName: string,
    password: string,
    firstName: string,
    lastName: string,
    age: int32)

  /** No two records share a key. */
  predicate UniqueIds(s: seq<User>) {
    forall i, j :: 0 <= i < j < |s| ==> s[i].id != s[j].id
  }

  /** The users table: a sequence of records whose keys are distinct. */
  type Store = s: seq<User> | UniqueIds(s)

  /** Some stored record carries key `id`. */
  ghost predicate HasId(s: seq<User>, id: int) {
    exists i :: 0 <= i < |s| && s[i].id == id
  }

  /** Two user names are equal once both are lower-cased and trimmed. */
  predicate SameName(a: string, b: string) {
    Normalize(a) == Normalize(b)
  }

  /** Some stored user name is the same name as `name`. */
  ghost predicate NameTaken(s: seq<User>, name: string) {
    exists i :: 0 <= i < |s| && SameName(s[i].userName, name)
  }
}
