/**
 * The user records of the JSON document store (internal/database/users.go).
 * Each Go method loads the document, reads or assigns into its `Users` map and
 * writes the document back; here the document is the field `users` of a `DB`
 * object, and loading and saving it are not modelled.
 */
module Users {
  import opened Wrappers
  import opened Http

  datatype User = User(id: int, email: string, hashedPassword: string, isChirpyRed: bool)

  /** The errors the store returns: sentinels, `fmt.Errorf` messages and wrapped errors. */
  datatype DbError =
    | NotExist                          // database.ErrNotExist
    | AlreadyExists                     // database.ErrAlreadyExists
    | Message(text: string)             // fmt.Errorf without %w: wraps nothing
    | Wrapped(text: string, cause: DbError)  // fmt.Errorf with %w
    | HashMismatch                      // error from bcrypt.CompareHashAndPassword
  {
    /** `errors.Is(this, target)`: the error itself or one it wraps is `target`. */
    predicate Is(target: DbError) {
      this == target || (Wrapped? && cause.Is(target))
    }
  }

  /** Some user in `users` has `email`. */
  ghost predicate HasEmail(users: map<int, User>, email: string) {
    exists id :: id in users && users[id].email == email
  }

  /** No two records share an email. */
  ghost predicate UniqueEmails(users: map<int, User>) {
    forall i, j :: i in users && j in users && users[i].email == users[j].email ==> i == j
  }

  /** The keys are exactly 1..|users| and every record carries its own key as ID. */
  ghost predicate DenseIds(users: map<int, User>) {
    && (forall id :: id in users <==> 1 <= id <= |users|)
    && (forall id :: id in users ==> users[id].id == id)
  }

  /** The message `CreateUser` fails with when the email is taken. */
  function TakenMessage(email: string): string {
    "user with Email " + email + " is already exists"
  }

  /** The message `GetUser` fails with when no user has the email. */
  function UnknownEmailMessage(email: string): string {
    "user with Email " + email + " not found"
  }

  /** `userExists`: a search over the map, in Go's arbitrary iteration order. */
  method UserExists(email: string, users: map<int, User>) returns (found: Option<User>)
    ensures found.Some? <==> HasEmail(users, email)
    ensures found.Some? ==> found.value.email == email
    ensures found.Some? ==> exists id :: id in users && users[id] == found.value
  {
    var unvisited := users.Keys;
    while unvisited != {}
      invariant unvisited <= users.Keys
      invariant forall id :: id in users && id !in unvisited ==> users[id].email != email
      decreases unvisited
    {
      assert (forall k :: k !in unvisited) ==> unvisited == {};
      var id :| id in unvisited;
      if users[id].email == email {
        return Some(users[id]);
      }
      unvisited := unvisited - {id};
    }
    return None;
  }

  class DB {
    /** `dbStructure.Users` of the document. */
    var users: map<int, User>

    /** The shape every sequence of the store's own operations keeps. */
    ghost predicate Valid()
      reads this
    {
      DenseIds(users)
    }

    /** A fresh document with no users. */
    constructor ()
      ensures users == map[] && Valid()
    {
      users := map[];
    }

    method GetUserByEmail(email: string) returns (r: Result<User, DbError>)
      ensures r.Success? <==> HasEmail(users, email)
      ensures r.Success? ==> r.value.email == email && r.value in users.Values
      ensures r.Failure? ==> r.error == NotExist
    {
      var found := UserExists(email, users);
      if found.None? {
        return Failure(NotExist);
      }
      return Success(found.value);
    }

    method CreateUser(email: string, hashedPassword: string) returns (r: Result<User, DbError>)
      modifies this
      ensures HasEmail(old(users), email) ==>
        r == Failure(Message(TakenMessage(email))) && users == old(users)
      ensures r.Failure? ==> !r.error.Is(AlreadyExists)
      ensures !HasEmail(old(users), email) ==>
        && r == Success(User(|old(users)| + 1, email, hashedPassword, false))
        && users == AfterCreate(old(users), email, hashedPassword)
      ensures old(UniqueEmails(users)) ==> UniqueEmails(users)
      ensures old(Valid()) ==> Valid()
      ensures old(Valid()) ==> forall id :: id in old(users) ==> id in users && users[id] == old(users)[id]
    {
      var existing := UserExists(email, users);
      if existing.Some? {
        return Failure(Message(TakenMessage(email)));
      }
      var id := |users| + 1;
      var user := User(id, email, hashedPassword, false);
      ghost var before := users;
      users := users[id := user];
      if DenseIds(before) {
        CreateKeepsDense(before, user);
      }
      r := Success(user);
    }

    /** `bcrypt.CompareHashAndPassword(hash, password) == nil` is `compare(hash, password)`. */
    method GetUser(email: string, password: string, compare: (string, string) -> bool)
      returns (r: Result<User, DbError>)
      ensures !HasEmail(users, email) <==> r == Failure(Message(UnknownEmailMessage(email)))
      ensures r.Success? ==>
        r.value.email == email && r.value in users.Values && compare(r.value.hashedPassword, password)
      ensures r.Failure? && HasEmail(users, email) ==> r.error == HashMismatch
      ensures r.Failure? && HasEmail(users, email) ==>
        exists id :: id in users && users[id].email == email && !compare(users[id].hashedPassword, password)
      ensures UniqueEmails(users) ==> forall id :: id in users && users[id].email == email ==>
        (r.Success? <==> compare(users[id].hashedPassword, password))
    {
      var found := UserExists(email, users);
      if found.None? {
        return Failure(Message(UnknownEmailMessage(email)));
      }
      ghost var key :| key in users && users[key] == found.value;
      assert UniqueEmails(users) ==> forall id :: id in users && users[id].email == email ==> id == key;
      if compare(found.value.hashedPassword, password) {
        return Success(found.value);
      }
      return Failure(HashMismatch);
    }

    method UpdateUser(id: int, email: string, hashedPassword: string) returns (r: Result<User, DbError>)
      modifies this
      ensures id !in old(users) ==> r == Failure(NotExist) && users == old(users)
      ensures id in old(users) ==>
        && r == Success(old(users)[id].(email := email, hashedPassword := hashedPassword))
        && r.value.id == old(users)[id].id && r.value.isChirpyRed == old(users)[id].isChirpyRed
        && users == old(users)[id := r.value]
      ensures users.Keys == old(users).Keys
      ensures forall k :: k in old(users) && k != id ==> users[k] == old(users)[k]
      ensures old(Valid()) ==> Valid()
    {
      if id !in users {
        return Failure(NotExist);
      }
      var user := users[id];
      user := user.(email := email, hashedPassword := hashedPassword);
      users := users[id := user];
      r := Success(user);
    }

    method UpgradeChirpyRed(id: int) returns (r: Result<User, DbError>)
      modifies this
      ensures id !in old(users) ==> r == Failure(NotExist) && users == old(users)
      ensures id in old(users) ==>
        && r == Success(old(users)[id].(isChirpyRed := true))
        && users == old(users)[id := r.value]
      ensures id in old(users) && old(users)[id].isChirpyRed ==> users == old(users)
      ensures users.Keys == old(users).Keys
      ensures forall k :: k in old(users) && k != id ==> users[k] == old(users)[k]
      ensures old(Valid()) ==> Valid()
      ensures old(UniqueEmails(users)) ==> UniqueEmails(users)
    {
      if id !in users {
        return Failure(NotExist);
      }
      var user := users[id];
      user := user.(isChirpyRed := true);
      users := users[id := user];
      r := Success(user);
    }
  }

  /** With keys 1..n, the ID n + 1 is unused, and adding it gives keys 1..n + 1. */
  lemma CreateKeepsDense(users: map<int, User>, user: User)
    requires DenseIds(users)
    requires user.id == |users| + 1
    ensures user.id !in users
    ensures DenseIds(users[user.id := user])
    ensures |users[user.id := user]| == |users| + 1
  {
    var after := users[user.id := user];
    assert after.Keys == users.Keys + {user.id};
  }

  /** The map `CreateUser` leaves when the email is free: the new user under `len(Users) + 1`. */
  function AfterCreate(users: map<int, User>, email: string, hash: string): map<int, User> {
    users[|users| + 1 := User(|users| + 1, email, hash, false)]
  }

  /**
   * On a document whose keys have a gap, `len(Users) + 1` can be an ID in use:
   * the map `CreateUser` leaves then has no more records than before, and no
   * key holds the user that was stored under that ID.
   */
  lemma IdOfCountCanBeTaken()
    ensures exists users: map<int, User>, email: string, hash: string ::
      && UniqueEmails(users) && !HasEmail(users, email) && |users| + 1 in users
      && |AfterCreate(users, email, hash)| == |users|
      && forall id :: id in AfterCreate(users, email, hash) ==>
           AfterCreate(users, email, hash)[id] != users[|users| + 1]
  {
    var users := map[2 := User(2, "a@example.com", "h", false)];
    var email, hash := "b@example.com", "h2";
    var after := AfterCreate(users, email, hash);
    assert after == map[2 := User(2, email, hash, false)];
    assert UniqueEmails(users) && !HasEmail(users, email) && |users| + 1 in users;
    assert |after| == |users| && forall id :: id in after ==> after[id] != users[|users| + 1];
  }

  /**
   * `UpdateUser` performs no uniqueness check: the new map it ensures can give
   * two users the same email.
   */
  lemma UpdateCanDuplicateEmail()
    ensures exists users: map<int, User>, id: int, email: string, hash: string ::
      && UniqueEmails(users) && id in users
      && !UniqueEmails(users[id := users[id].(email := email, hashedPassword := hash)])
  {
    var a := User(1, "a@example.com", "h1", false);
    var b := User(2, "b@example.com", "h2", false);
    var users := map[1 := a, 2 := b];
    assert UniqueEmails(users);
    var after := users[2 := users[2].(email := "a@example.com", hashedPassword := "h3")];
    assert after[1].email == after[2].email;
    assert UniqueEmails(users) && 2 in users && !UniqueEmails(after);
  }

  // ---------------------------------------------------------------------------
  // The duplicate-email error as handlers/users.go reads it

  /**
   * `HandlePostUser` (handlers/users.go): the status a failed `CreateUser` is
   * answered with, 409 when `errors.Is(err, ErrAlreadyExists)` and 500 otherwise.
   */
  function SignupFailureStatus(err: DbError): int {
    if err.Is(AlreadyExists) then StatusConflict else StatusInternalServerError
  }

  /** As written, signing up twice with one email is answered with 500, not 409. */
  lemma DuplicateSignupAnswers500(email: string)
    ensures SignupFailureStatus(Message(TakenMessage(email))) == StatusInternalServerError
  {
  }

  /** The duplicate-email error wrapping `ErrAlreadyExists`, as `fmt.Errorf("...: %w", ErrAlreadyExists)` would. */
  function ConflictError(email: string): (e: DbError)
    ensures e.Is(AlreadyExists)
    ensures e.Wrapped? && e.text == TakenMessage(email)
  {
    Wrapped(TakenMessage(email), AlreadyExists)
  }

  /** With the wrapped error, a duplicate sign-up is answered with 409. */
  lemma CorrectedDuplicateSignupAnswers409(email: string)
    ensures SignupFailureStatus(ConflictError(email)) == StatusConflict
  {
  }
}
