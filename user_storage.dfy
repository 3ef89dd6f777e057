/**
 * The account registry of `src/utils/userStorage.ts`: a list of accounts kept
 * in one browser storage slot, with registration, credential and membership
 * queries, and a "clear all" operation. E-mail addresses are compared after
 * lower-casing.
 */
module UserStorage {
  import opened Wrappers
  import opened Text

  datatype RegisteredUser = RegisteredUser(email: string, password: string, name: string, registeredAt: string)

  /** Two addresses are the same account key when their lower-cased forms are equal. */
  predicate SameEmail(a: string, b: string) {
    ToLower(a) == ToLower(b)
  }

  /** `Array.prototype.find`: the first element satisfying `p`. */
  function Find<T>(s: seq<T>, p: T -> bool): (r: Option<T>)
    ensures r.None? <==> forall i :: 0 <= i < |s| ==> !p(s[i])
    ensures r.Some? ==> r.value in s && p(r.value)
  {
    if s == [] then None
    else if p(s[0]) then Some(s[0])
    else
      var r := Find(s[1..], p);
      assert forall i :: 1 <= i < |s| ==> s[i] == s[1..][i - 1];
      r
  }

  /** `Array.prototype.some`: some element satisfies `p`. */
  function Any<T>(s: seq<T>, p: T -> bool): (r: bool)
    ensures r <==> exists i :: 0 <= i < |s| && p(s[i])
  {
    if s == [] then false
    else if p(s[0]) then true
    else
      var r := Any(s[1..], p);
      assert forall i :: 1 <= i < |s| ==> s[i] == s[1..][i - 1];
      r
  }

  predicate HasEmail(u: RegisteredUser, email: string) {
    SameEmail(u.email, email)
  }

  predicate HasCredentials(u: RegisteredUser, email: string, password: string) {
    SameEmail(u.email, email) && u.password == password
  }

  /** The lookup `registerUser` does before adding: is some stored record the same account key? */
  function FindByEmail(users: seq<RegisteredUser>, email: string): (r: Option<RegisteredUser>)
    ensures r.None? <==> forall i :: 0 <= i < |users| ==> !HasEmail(users[i], email)
    ensures r.Some? ==> r.value in users && HasEmail(r.value, email)
  {
    Find(users, u => HasEmail(u, email))
  }

  /** The list-level query of `isEmailRegistered`. */
  function EmailRegistered(users: seq<RegisteredUser>, email: string): (r: bool)
    ensures r <==> exists i :: 0 <= i < |users| && HasEmail(users[i], email)
  {
    Any(users, u => HasEmail(u, email))
  }

  /** The list-level query of `validateUserCredentials`. */
  function CredentialsMatch(users: seq<RegisteredUser>, email: string, password: string): (r: bool)
    ensures r <==> exists i :: 0 <= i < |users| && HasCredentials(users[i], email, password)
  {
    Find(users, u => HasCredentials(u, email, password)).Some?
  }

  /** The registry's invariant: no two records share an account key. */
  ghost predicate UniqueEmails(users: seq<RegisteredUser>) {
    forall i, j :: 0 <= i < j < |users| ==> !SameEmail(users[i].email, users[j].email)
  }

  /** Matching credentials imply a registered address. */
  lemma CredentialsImplyRegistered(users: seq<RegisteredUser>, email: string, password: string)
    ensures CredentialsMatch(users, email, password) ==> EmailRegistered(users, email)
  {
  }

  /** Both queries see only the lower-cased address. */
  lemma QueriesIgnoreCase(users: seq<RegisteredUser>, e1: string, e2: string, password: string)
    requires SameEmail(e1, e2)
    ensures EmailRegistered(users, e1) == EmailRegistered(users, e2)
    ensures CredentialsMatch(users, e1, password) == CredentialsMatch(users, e2, password)
  {
  }

  /** Appending a record with a fresh account key keeps the keys unique. */
  lemma AppendKeepsUnique(users: seq<RegisteredUser>, u: RegisteredUser)
    requires UniqueEmails(users) && !EmailRegistered(users, u.email)
    ensures UniqueEmails(users + [u])
  {
  }

  /**
   * After a successful registration, the new address (in any casing) is
   * registered, and it logs in with exactly the password just stored.
   */
  lemma RegisterThenQuery(users: seq<RegisteredUser>, u: RegisteredUser, email: string, password: string)
    requires !EmailRegistered(users, u.email) && SameEmail(email, u.email)
    ensures EmailRegistered(users + [u], email)
    ensures CredentialsMatch(users + [u], email, password) <==> password == u.password
  {
    var s := users + [u];
    assert HasEmail(s[|users|], email);
    if CredentialsMatch(s, email, password) {
      var i :| 0 <= i < |s| && HasCredentials(s[i], email, password);
      if i < |users| {
        assert HasEmail(users[i], u.email);
      }
    }
    if password == u.password {
      assert HasCredentials(s[|users|], email, password);
    }
  }

  /** Appending a record leaves every earlier answer "registered" in place. */
  lemma AppendKeepsRegistered(users: seq<RegisteredUser>, u: RegisteredUser, email: string)
    ensures EmailRegistered(users, email) ==> EmailRegistered(users + [u], email)
  {
    if EmailRegistered(users, email) {
      var i :| 0 <= i < |users| && HasEmail(users[i], email);
      assert (users + [u])[i] == users[i];
    }
  }

  /**
   * The storage slot and the operations on it. `hasWindow` is false where the
   * code runs without a browser window; there every operation is a no-op that
   * reports "empty" or `false`.
   */
  class Registry {
    const hasWindow: bool
    /** The slot's content: `None` when the key is absent, empty, or does not parse. */
    var slot: Option<seq<RegisteredUser>>

    constructor (hasWindow: bool, slot: Option<seq<RegisteredUser>>)
      ensures this.hasWindow == hasWindow && this.slot == slot
    {
      this.hasWindow := hasWindow;
      this.slot := slot;
    }

    /** `getRegisteredUsers`: the stored list, or the empty list when there is none to read. */
    function Users(): (r: seq<RegisteredUser>)
      reads this
      ensures !hasWindow || slot.None? ==> r == []
      ensures hasWindow && slot.Some? ==> r == slot.value
    {
      if !hasWindow then []
      else match slot
        case None => []
        case Some(users) => users
    }

    /** `validateUserCredentials`: some record has the address, in any casing, and exactly the password. */
    function ValidateUserCredentials(email: string, password: string): (r: bool)
      reads this
      ensures r <==> hasWindow && exists i :: 0 <= i < |Users()| && HasCredentials(Users()[i], email, password)
      ensures r == (hasWindow && CredentialsMatch(Users(), email, password))
    {
      if !hasWindow then false
      else CredentialsMatch(Users(), email, password)
    }

    /** `isEmailRegistered`: some record has the address, in any casing. */
    function IsEmailRegistered(email: string): (r: bool)
      reads this
      ensures r <==> hasWindow && exists i :: 0 <= i < |Users()| && HasEmail(Users()[i], email)
      ensures r == (hasWindow && EmailRegistered(Users(), email))
    {
      if !hasWindow then false
      else EmailRegistered(Users(), email)
    }

    /**
     * `registerUser`: refuses an address that is already stored (in any casing)
     * and changes nothing; otherwise appends one record, stamped with
     * `registeredAt` (the caller's clock), and rewrites the slot.
     */
    method RegisterUser(email: string, password: string, name: string, registeredAt: string) returns (ok: bool)
      modifies this
      ensures ok <==> hasWindow && !old(EmailRegistered(Users(), email))
      ensures !ok ==> slot == old(slot)
      ensures ok ==> slot == Some(old(Users()) + [RegisteredUser(email, password, name, registeredAt)])
      ensures UniqueEmails(old(Users())) ==> UniqueEmails(Users())
    {
      if !hasWindow {
        return false;
      }
      var users := Users();
      var existingUser := FindByEmail(users, email);
      if existingUser.Some? {
        return false;
      }
      var newUser := RegisteredUser(email, password, name, registeredAt);
      if UniqueEmails(users) {
        AppendKeepsUnique(users, newUser);
      }
      users := users + [newUser];
      slot := Some(users);
      ok := true;
    }

    /** `clearAllUsers`: removes the slot, after which no address is registered. */
    method ClearAllUsers()
      modifies this
      ensures hasWindow ==> slot.None?
      ensures !hasWindow ==> slot == old(slot)
      ensures Users() == []
      ensures forall email :: !IsEmailRegistered(email)
    {
      if !hasWindow {
        return;
      }
      slot := None;
    }
  }

  /**
   * Registering one address twice, the second time in another casing: the
   * first call succeeds and the second is refused, leaving one record.
   */
  method RegisterTwice(registry: Registry, email: string, otherCasing: string, p1: string, p2: string, n1: string, n2: string, t1: string, t2: string)
    returns (first: bool, second: bool)
    requires registry.hasWindow && SameEmail(email, otherCasing)
    requires !registry.IsEmailRegistered(email)
    modifies registry
    ensures first && !second
    ensures registry.Users() == old(registry.Users()) + [RegisteredUser(email, p1, n1, t1)]
    ensures registry.ValidateUserCredentials(otherCasing, p1)
  {
    first := registry.RegisterUser(email, p1, n1, t1);
    RegisterThenQuery(old(registry.Users()), RegisteredUser(email, p1, n1, t1), otherCasing, p1);
    second := registry.RegisterUser(otherCasing, p2, n2, t2);
  }
}
