/**
 * The account store behind `save` and `findByEmail` (src/user/userService.js).
 *
 * The database table is an in-memory sequence of records in insertion order.
 * bcrypt is not modelled: its hash is a parameter of type `Hasher`.
 */
module UserService {
  import opened Wrappers

  /** A request body: the three registration fields, `inactive`, and whatever else the client sent. */
  datatype Body = Body(
    username: Option<string>,
    email: Option<string>,
    password: Option<string>,
    inactive: Option<bool>,
    others: map<string, string>)

  /** A stored account: exactly the four fields `save` passes to `User.create`. */
  datatype User = User(
    username: Option<string>,
    email: Option<string>,
    password: string,
    inactive: Option<bool>)

  /** bcrypt.hash(plaintext, rounds), left uninterpreted. */
  type Hasher = (string, nat) -> string

  /** The cost factor `save` passes to bcrypt. */
  const SaltRounds: nat := 10

  /** bcrypt refuses to hash a missing password, so `save` rejects before touching the store. */
  datatype SaveError = HashArgumentMissing

  /** The record `save` builds from a body whose password is present. */
  function NewRecord(body: Body, hash: Hasher): User
    requires body.password.Some?
  {
    User(body.username, body.email, hash(body.password.value, SaltRounds), body.inactive)
  }

  /**
   * `findByEmail`: the first record, in insertion order, whose email is exactly `email`;
   * None plays the role of `false`. It is a function of the table, so it changes nothing.
   */
  function FindByEmail(users: seq<User>, email: string): (r: Option<User>)
    ensures r.Some? <==> exists i :: 0 <= i < |users| && users[i].email == Some(email)
    ensures r.Some? ==> r.value.email == Some(email)
    ensures r.Some? ==>
      exists i :: 0 <= i < |users| && users[i] == r.value &&
        forall j :: 0 <= j < i ==> users[j].email != Some(email)
  {
    if users == [] then None
    else if users[0].email == Some(email) then Some(users[0])
    else
      var r := FindByEmail(users[1..], email);
      assert forall i :: 1 <= i < |users| ==> users[i] == users[1..][i - 1];
      r
  }

  /**
   * Appending a record (what `save` does) never changes what an earlier lookup found, and makes
   * the new record findable under its own email when no earlier record has that email.
   */
  lemma {:induction false} FindAfterAppend(users: seq<User>, u: User, email: string)
    ensures FindByEmail(users + [u], email) ==
      if FindByEmail(users, email).Some? then FindByEmail(users, email)
      else if u.email == Some(email) then Some(u)
      else None
  {
    if users != [] {
      assert (users + [u])[1..] == users[1..] + [u];
      FindAfterAppend(users[1..], u, email);
    }
  }

  /** Saving never keeps the plaintext when the hash is one-way on it, and always keeps its hash. */
  lemma StoredPasswordIsHash(body: Body, hash: Hasher)
    requires body.password.Some?
    requires hash(body.password.value, SaltRounds) != body.password.value
    ensures NewRecord(body, hash).password == hash(body.password.value, 10)
    ensures NewRecord(body, hash).password != body.password.value
  {
  }

  /** The record depends on the body only through username, email, password and inactive. */
  lemma RecordIgnoresOtherFields(b1: Body, b2: Body, hash: Hasher)
    requires b1.password.Some? && b2.password.Some?
    requires b1.username == b2.username && b1.email == b2.email
    requires b1.password == b2.password && b1.inactive == b2.inactive
    ensures NewRecord(b1, hash) == NewRecord(b2, hash)
    ensures NewRecord(b1, hash).username == b1.username
    ensures NewRecord(b1, hash).email == b1.email
    ensures NewRecord(b1, hash).inactive == b1.inactive
  {
  }

  /** The users table. */
  class UserStore {
    var users: seq<User>

    constructor ()
      ensures users == []
    {
      users := [];
    }

    /** `save`: hash the password, build the record, append it, return it. */
    method Save(body: Body, hash: Hasher) returns (r: Result<User, SaveError>)
      modifies this
      ensures body.password.None? ==> r == Failure(HashArgumentMissing) && users == old(users)
      ensures body.password.Some? ==>
        r == Success(NewRecord(body, hash)) && users == old(users) + [NewRecord(body, hash)]
    {
      if body.password.None? {
        return Failure(HashArgumentMissing);
      }
      var digest := hash(body.password.value, SaltRounds);
      var user := User(body.username, body.email, digest, body.inactive);
      users := users + [user];
      r := Success(user);
    }
  }
}
