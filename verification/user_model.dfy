/**
 * The `User` collection: the schema's record invariant and the queries the
 * controller runs against it (`User.find({ username })`, `User.findById`,
 * `User.findByIdAndUpdate(id, { exercise })`).
 */
module UserModel {
  import opened Wrappers
  import opened Host

  const MaxUsernameLength: nat := 25

  /** A stored user: `exercise` is one optional reference, not a list. */
  datatype User = User(id: Id, username: string, exercise: Option<Id>)

  /** The schema: `username` is a required (so non-empty) string of at most 25 characters. */
  predicate ValidUser(u: User) {
    0 < |u.username| <= MaxUsernameLength
  }

  /** The request field the schema accepts: a present, non-empty username of at most 25 characters. */
  predicate AcceptableUsername(username: Option<string>) {
    username.Some? && 0 < |username.value| <= MaxUsernameLength
  }

  /**
   * `User.create({ username })`: the document passes validation exactly when the
   * username is present, non-empty and short enough, and starts with no exercise link.
   */
  function NewUser(id: Id, username: Option<string>): (r: Option<User>)
    ensures r.Some? <==> AcceptableUsername(username)
    ensures r.Some? ==> ValidUser(r.value) && r.value.exercise.None?
    ensures r.Some? ==> r.value.id == id && r.value.username == username.value
  {
    match username
    case Some(name) => if 0 < |name| <= MaxUsernameLength then Some(User(id, name, None)) else None
    case None => None
  }

  /** `User.findById(id)`: the first stored user with that id, if any. */
  function FindUser(users: seq<User>, id: Id): (r: Option<User>)
    ensures r.Some? ==> r.value in users && r.value.id == id
    ensures r.None? <==> forall u :: u in users ==> u.id != id
  {
    if users == [] then None
    else if users[0].id == id then Some(users[0])
    else FindUser(users[1..], id)
  }

  /** The stored usernames, in store order, repeats included. */
  function Names(users: seq<User>): seq<string> {
    if users == [] then [] else [users[0].username] + Names(users[1..])
  }

  /**
   * The number of documents `User.find({ username })` returns: how many stored
   * users carry the name, repeats included, and none for an absent username.
   */
  function CountNamed(users: seq<User>, username: Option<string>): (n: nat)
    ensures n <= |users|
    ensures username.Some? ==> n == multiset(Names(users))[username.value]
    ensures username.None? ==> n == 0
  {
    if users == [] then 0
    else (if username == Some(users[0].username) then 1 else 0) + CountNamed(users[1..], username)
  }

  /** No two stored users share a username. */
  ghost predicate UniqueUsernames(users: seq<User>) {
    forall i, j :: 0 <= i < j < |users| ==> users[i].username != users[j].username
  }

  /** The duplicate query finds nothing exactly when no stored user carries the name. */
  lemma {:induction false} CountNamedZero(users: seq<User>, name: string)
    ensures CountNamed(users, Some(name)) == 0 <==> forall u :: u in users ==> u.username != name
  {
    if users != [] {
      CountNamedZero(users[1..], name);
      assert forall u :: u in users <==> u == users[0] || u in users[1..];
    }
  }

  /** With unique usernames the duplicate query returns at most one document. */
  lemma {:induction false} CountNamedAtMostOne(users: seq<User>, name: string)
    requires UniqueUsernames(users)
    ensures CountNamed(users, Some(name)) <= 1
  {
    if users != [] {
      assert UniqueUsernames(users[1..]) by {
        forall i, j | 0 <= i < j < |users| - 1
          ensures users[1..][i].username != users[1..][j].username
        {
          assert users[1..][i] == users[i + 1] && users[1..][j] == users[j + 1];
        }
      }
      CountNamedAtMostOne(users[1..], name);
      if users[0].username == name {
        CountNamedZero(users[1..], name);
        forall u | u in users[1..] ensures u.username != name {
          var k :| 0 <= k < |users[1..]| && users[1..][k] == u;
          assert users[k + 1] == u;
        }
      }
    }
  }

  /**
   * `createUser` rejects a name only when exactly one stored user has it
   * (controllers/user.js:34).  On a store with unique usernames that is the same
   * as rejecting every name already taken.
   */
  lemma DuplicateCheckIsExact(users: seq<User>, name: string)
    requires UniqueUsernames(users)
    ensures CountNamed(users, Some(name)) == 1 <==> exists u :: u in users && u.username == name
  {
    CountNamedZero(users, name);
    CountNamedAtMostOne(users, name);
  }

  /** Appending a user whose name the duplicate query did not find keeps usernames unique. */
  lemma AppendKeepsUnique(users: seq<User>, u: User)
    requires UniqueUsernames(users)
    requires CountNamed(users, Some(u.username)) != 1
    ensures UniqueUsernames(users + [u])
  {
    DuplicateCheckIsExact(users, u.username);
    CountNamedZero(users, u.username);
    var s := users + [u];
    forall i, j | 0 <= i < j < |s| ensures s[i].username != s[j].username {
      if j == |users| {
        assert s[i] in users;
      } else {
        assert s[i] == users[i] && s[j] == users[j];
      }
    }
  }

  /**
   * `User.findByIdAndUpdate(id, { exercise: eid })`: the first user with that id has
   * its single exercise link replaced, whatever it held before; every other record
   * is untouched.
   */
  function LinkExercise(users: seq<User>, id: Id, eid: Id): (r: seq<User>)
    ensures |r| == |users|
    ensures forall i :: 0 <= i < |users| ==>
      r[i] == users[i] || (users[i].id == id && r[i] == users[i].(exercise := Some(eid)))
    ensures FindUser(users, id).None? ==> r == users
    ensures FindUser(r, id) == match FindUser(users, id)
      case None => None
      case Some(u) => Some(u.(exercise := Some(eid)))
  {
    if users == [] then []
    else if users[0].id == id then [users[0].(exercise := Some(eid))] + users[1..]
    else [users[0]] + LinkExercise(users[1..], id, eid)
  }
}
