/** The records under the `users` key, the `currentUser` session record, and
    the lookups `register` and `login` make on them. */
module Accounts {
  import opened Wrappers
  import opened Text
  import opened Lists

  /** The source's role strings `'admin'` and `'user'`. */
  datatype Role = Admin | Member

  /** A stored user; the password is kept and compared as plain text. */
  datatype User = User(id: int, email: string, password: string, role: Role)

  /** What `currentUser` holds: the user without the password. */
  datatype Session = Session(id: int, email: string, role: Role)

  /** The errors `register` and `login` throw. */
  datatype AuthError = InvalidEmail | WeakPassword | DuplicateEmail | InvalidCredentials

  function SessionOf(u: User): Session
  {
    Session(u.id, u.email, u.role)
  }

  /** Some stored email is exactly `email` (the duplicate test of `register`). */
  predicate EmailTaken(users: seq<User>, email: string)
  {
    exists i :: 0 <= i < |users| && users[i].email == email
  }

  /** `register`'s lookup `users.find(u => u.email === email)`. */
  function FindEmail(users: seq<User>, email: string): (r: Option<nat>)
    ensures r.Some? <==> EmailTaken(users, email)
  {
    First(users, (u: User) => u.email == email)
  }

  /** `login`'s test: emails equal ignoring case, passwords equal exactly. */
  predicate CredentialsMatch(u: User, email: string, password: string)
  {
    ToLower(u.email) == ToLower(email) && u.password == password
  }

  /** `login`'s lookup: the first user whose credentials match. */
  function FindCredential(users: seq<User>, email: string, password: string): (r: Option<nat>)
    ensures r.Some? ==> r.value < |users| && CredentialsMatch(users[r.value], email, password)
    ensures r.Some? ==> forall j :: 0 <= j < r.value ==> !CredentialsMatch(users[j], email, password)
    ensures r.None? <==> forall j :: 0 <= j < |users| ==> !CredentialsMatch(users[j], email, password)
  {
    First(users, (u: User) => CredentialsMatch(u, email, password))
  }

  /** The invariant `register` keeps: stored emails are lower case and no
      two users share one. */
  ghost predicate UsersValid(users: seq<User>)
  {
    && (forall i :: 0 <= i < |users| ==> ToLower(users[i].email) == users[i].email)
    && (forall i, j :: 0 <= i < j < |users| ==> users[i].email != users[j].email)
  }

  /** Appending a user whose email is a lower-cased address nobody has yet
      keeps the invariant. */
  lemma RegisterKeepsValid(users: seq<User>, email: string, u: User)
    requires UsersValid(users)
    requires u.email == ToLower(email) && !EmailTaken(users, u.email)
    ensures UsersValid(users + [u])
  {
    ToLowerIdempotent(email);
    var all := users + [u];
    assert forall i :: 0 <= i < |users| ==> all[i] == users[i];
  }

  /** With valid users, logging in with a user's email in any case and its
      password finds exactly that user. */
  lemma {:induction false} LoginFindsOwner(users: seq<User>, k: nat, email: string, password: string)
    requires UsersValid(users) && k < |users|
    requires users[k].email == ToLower(email) && users[k].password == password
    ensures FindCredential(users, email, password) == Some(k)
  {
    ToLowerIdempotent(email);
    var r := FindCredential(users, email, password);
    assert CredentialsMatch(users[k], email, password);
  }
}
