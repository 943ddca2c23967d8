/**
 * UserService: account creation behind a `user_exists` pre-check, and sign-in
 * by username, falling back to email, with a digest comparison.
 */
module UserSvc {
  import opened Wrappers
  import opened Store
  import opened UserModel
  import opened UserRepo

  /** What `hexdigest()` of a SHA-256 digest looks like: 64 lower-case hexadecimal digits. */
  predicate IsHexDigest(d: string) {
    |d| == 64 && forall i :: 0 <= i < |d| ==> d[i] in "0123456789abcdef"
  }

  type HexDigest = d: string | IsHexDigest(d)
    witness Zeros(64)

  /** `n` zero digits. */
  function Zeros(n: nat): (s: string)
    ensures |s| == n && forall i :: 0 <= i < |s| ==> s[i] == '0'
  {
    if n == 0 then "" else "0" + Zeros(n - 1)
  }

  /**
   * `create_user` on a User table, `hash` being the password digest: the
   * outcome and the table afterwards.
   */
  function CreateUserResult(t: UserTable, hash: string -> HexDigest, username: string, email: string, password: string, fault: bool)
    : (r: (bool, UserTable))
    requires t.Valid()
    ensures r.1.Valid()
    ensures r.0 <==> !fault && !Taken(t, username, email)
    ensures r.0 ==> r.1 == UserTable(t.rows + [StoredRow(t.lastId + 1, User(None, username, email, hash(password)))], t.lastId + 1)
    ensures !r.0 ==> r.1 == t
  {
    if AccountExists(t, username, email) then (false, t)
    else CreateResult(t, User(None, username, email, hash(password)), fault)
  }

  /**
   * `verify_user`: the account found by username, or by email when no
   * username matches, provided its stored digest is the digest of `password`.
   */
  function VerifyResult(t: UserTable, hash: string -> HexDigest, usernameOrEmail: string, password: string)
    : (u: Option<User>)
    requires t.Valid()
    ensures u.Some? ==> u.value.hashedPassword == hash(password)
    ensures u.Some? ==> u.value.username == usernameOrEmail || u.value.email == usernameOrEmail
    ensures u.Some? ==> exists k :: 0 <= k < |t.rows| && u.value == FromDbRow(t.rows[k])
    ensures (forall k :: 0 <= k < |t.rows| ==>
               FromDbRow(t.rows[k]).username != usernameOrEmail && FromDbRow(t.rows[k]).email != usernameOrEmail)
            ==> u.None?
  {
    var hashed := hash(password);
    var user := if UserWithUsername(t, usernameOrEmail).Some? then UserWithUsername(t, usernameOrEmail)
                else UserWithEmail(t, usernameOrEmail);
    if user.Some? && user.value.hashedPassword == hashed then user else None
  }

  /**
   * A username match decides: with the wrong password the answer is None,
   * even when another account has that string as its email.
   */
  lemma UsernameMatchDecides(t: UserTable, hash: string -> HexDigest, name: string, password: string)
    requires t.Valid() && UserWithUsername(t, name).Some?
    ensures var u := UserWithUsername(t, name).value;
            VerifyResult(t, hash, name, password) == if u.hashedPassword == hash(password) then Some(u) else None
  {
  }

  /** The email is tried only when no account has the string as its username. */
  lemma EmailFallback(t: UserTable, hash: string -> HexDigest, email: string, password: string)
    requires t.Valid() && UserWithUsername(t, email).None? && UserWithEmail(t, email).Some?
    ensures var u := UserWithEmail(t, email).value;
            VerifyResult(t, hash, email, password) == if u.hashedPassword == hash(password) then Some(u) else None
  {
  }

  /**
   * After a successful `create_user(u, e, p)`, signing in as `u` with `p`
   * returns the new account, and with a password of another digest returns None.
   */
  lemma SignUpThenSignIn(t: UserTable, hash: string -> HexDigest, username: string, email: string, password: string, other: string)
    requires t.Valid() && CreateUserResult(t, hash, username, email, password, false).0
    requires hash(other) != hash(password)
    ensures var t' := CreateUserResult(t, hash, username, email, password, false).1;
            VerifyResult(t', hash, username, password) == Some(User(Some(t.lastId + 1), username, email, hash(password)))
            && VerifyResult(t', hash, username, other).None?
  {
    var user := User(None, username, email, hash(password));
    var t' := CreateUserResult(t, hash, username, email, password, false).1;
    assert t' == CreateResult(t, user, false).1;
    CreateThenLookup(t, user);
    UsernameMatchDecides(t', hash, username, password);
    UsernameMatchDecides(t', hash, username, other);
  }

  /**
   * Signing in with the email of a new account works too, unless some older
   * account has that email string as its username.
   */
  lemma SignUpThenSignInByEmail(t: UserTable, hash: string -> HexDigest, username: string, email: string, password: string)
    requires t.Valid() && CreateUserResult(t, hash, username, email, password, false).0
    requires forall k :: 0 <= k < |t.rows| ==> FromDbRow(t.rows[k]).username != email
    ensures var t' := CreateUserResult(t, hash, username, email, password, false).1;
            VerifyResult(t', hash, email, password) == Some(User(Some(t.lastId + 1), username, email, hash(password)))
  {
    var user := User(None, username, email, hash(password));
    var stored := User(Some(t.lastId + 1), username, email, hash(password));
    var t' := CreateUserResult(t, hash, username, email, password, false).1;
    assert t' == CreateResult(t, user, false).1;
    CreateThenLookup(t, user);
    assert UserWithEmail(t', email) == Some(stored);
    if username == email {
      UsernameMatchDecides(t', hash, email, password);
    } else {
      assert UserWithUsername(t', email).None? by {
        ReadStoredRow(t.lastId + 1, user);
        forall k | 0 <= k < |t'.rows| ensures FromDbRow(t'.rows[k]).username != email {
          if k < |t.rows| {
            assert t'.rows[k] == t.rows[k];
          }
        }
      }
      EmailFallback(t', hash, email, password);
    }
  }

  class UserService {
    const repo: UserRepository
    /** The digest `_encrypt_password` computes; SHA-256 itself is not modelled, only the form of its hex output. */
    const hash: string -> HexDigest

    constructor(repo: UserRepository, hash: string -> HexDigest)
      ensures this.repo == repo && this.hash == hash
    {
      this.repo := repo;
      this.hash := hash;
    }

    /** `_encrypt_password`: the hex digest of the password, the same for the same password. */
    function EncryptPassword(password: string): (d: string)
      ensures IsHexDigest(d)
    {
      hash(password)
    }

    method CreateUser(username: string, email: string, password: string, fault: bool) returns (ok: bool)
      requires repo.Valid()
      modifies repo
      ensures (ok, repo.Table()) == CreateUserResult(old(repo.Table()), hash, username, email, password, fault)
      ensures repo.Valid()
    {
      var taken := repo.UserExists(username, email);
      if taken {
        return false;
      }
      var hashed := EncryptPassword(password);
      ok := repo.Create(User(None, username, email, hashed), fault);
    }

    method VerifyUser(usernameOrEmail: string, password: string) returns (u: Option<User>)
      requires repo.Valid()
      ensures u == VerifyResult(repo.Table(), hash, usernameOrEmail, password)
    {
      var hashed := EncryptPassword(password);
      u := repo.GetByUsername(usernameOrEmail);
      if u.None? {
        u := repo.GetByEmail(usernameOrEmail);
      }
      if !(u.Some? && u.value.hashedPassword == hashed) {
        u := None;
      }
    }
  }
}
