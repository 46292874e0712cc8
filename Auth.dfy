/**
 * Sign-in state (src/hooks/useAuth.ts): registration, login, logout and the
 * restore of a stored sign-in when the application loads.
 *
 * The storage slot `smart-resume-users` is a field holding the parsed user
 * table (an unwritten slot reads as the empty table), and the slot
 * `smart-resume-auth` a field holding what it parses to. The uuid generator
 * and the clock are parameters.
 */
module Auth {
  import opened Wrappers
  import opened Types
  import opened Arrays
  import opened Text

  /** A row of the user table: the public fields and the password as it was typed. */
  datatype StoredUser = StoredUser(id: string, name: string, email: string, password: string, createdAt: string)

  /**
   * The contents of the sign-in slot: one whose restore throws (text that is
   * not JSON, or the JSON `null`, which throws at `parsedAuth.user`), or an
   * object whose `user` may be missing.
   */
  datatype StoredAuth = Unparsable | Parsed(user: Option<User>)

  /** The user as the sign-in slot and the state hold it: the row without its password. */
  function PublicUser(u: StoredUser): (r: User)
    ensures r.id == u.id && r.email == u.email && r.name == u.name && r.createdAt == u.createdAt
  {
    User(u.id, u.email, u.name, u.createdAt)
  }

  /** `u.email === email && u.password === password`. */
  function Credentials(email: string, password: string): StoredUser -> bool {
    (u: StoredUser) => u.email == email && u.password == password
  }

  /** `u.email === email`. */
  function EmailIs(email: string): StoredUser -> bool {
    (u: StoredUser) => u.email == email
  }

  /** The user an attempt to sign in finds: the first row with that e-mail and password. */
  function LoginUser(users: seq<StoredUser>, email: string, password: string): (r: Option<User>)
    ensures r.None? <==> forall i :: 0 <= i < |users| ==> !(users[i].email == email && users[i].password == password)
    ensures r.Some? ==> exists i :: (0 <= i < |users| && r.value == PublicUser(users[i]) &&
      users[i].email == email && users[i].password == password &&
      forall j :: 0 <= j < i ==> !(users[j].email == email && users[j].password == password))
  {
    var found := Find(users, Credentials(email, password));
    if found.Some? then Some(PublicUser(found.value)) else None
  }

  /** The row `register` adds: trimmed name, lower-cased and trimmed e-mail. */
  function NewUser(name: string, email: string, password: string, freshId: string, now: string): (u: StoredUser)
    ensures u.id == freshId && u.password == password && u.createdAt == now
    ensures u.name == Trim(name) && u.email == NormalizeEmail(email)
  {
    StoredUser(freshId, Trim(name), NormalizeEmail(email), password, now)
  }

  /**
   * The user table after `register`: refused (`None`) when a row has exactly
   * the e-mail as typed, otherwise extended by the new row.
   */
  function Registered(users: seq<StoredUser>, name: string, email: string, password: string, freshId: string, now: string)
    : (r: Option<seq<StoredUser>>)
    ensures r.None? <==> exists i :: 0 <= i < |users| && users[i].email == email
    ensures r.Some? ==> r.value == users + [NewUser(name, email, password, freshId, now)]
  {
    if Find(users, EmailIs(email)).Some? then None
    else Some(users + [NewUser(name, email, password, freshId, now)])
  }

  /** The user a stored sign-in restores: one that is present and has a non-empty id. */
  function Restored(slot: Option<StoredAuth>): (r: Option<User>)
    ensures r.Some? <==> slot.Some? && slot.value.Parsed? && slot.value.user.Some? && slot.value.user.value.id != ""
    ensures r.Some? ==> slot == Some(Parsed(r))
  {
    match slot
    case Some(Parsed(Some(u))) => if u.id != "" then Some(u) else None
    case _ => None
  }

  predicate DistinctEmails(users: seq<StoredUser>) {
    forall i, j :: 0 <= i < j < |users| ==> users[i].email != users[j].email
  }

  /** Registering an address that is already lower-case and trimmed keeps the e-mails of the table distinct. */
  lemma RegisterKeepsEmailsDistinct(users: seq<StoredUser>, name: string, email: string, password: string, freshId: string, now: string)
    requires DistinctEmails(users)
    requires NormalizeEmail(email) == email
    requires Registered(users, name, email, password, freshId, now).Some?
    ensures DistinctEmails(Registered(users, name, email, password, freshId, now).value)
  {
    var r := Registered(users, name, email, password, freshId, now).value;
    assert r[|users|].email == email;
    assert forall i :: 0 <= i < |users| ==> r[i] == users[i];
  }

  /** A new address is accepted even when the table already holds it in lower case. */
  lemma NormalizeMixedCase()
    ensures NormalizeEmail("A@x") == "a@x"
  {
    var low := ToLower("A@x");
    assert low == "a@x" by {
      assert low[0] == 'a' && low[1] == '@' && low[2] == 'x';
    }
    TrimOfTrimmed("a@x");
  }

  /**
   * The duplicate check compares the address as typed with the stored,
   * normalised ones: `A@x` is not `a@x`, so a second row with `a@x` is added.
   */
  lemma RawEmailAdmitsDuplicate()
    ensures var users := [StoredUser("1", "B", "a@x", "p", "t0")];
      var r := Registered(users, "C", "A@x", "q", "2", "t1");
      r.Some? && !DistinctEmails(r.value)
  {
    NormalizeMixedCase();
    var users := [StoredUser("1", "B", "a@x", "p", "t0")];
    assert users[0].email != "A@x";
    var r := Registered(users, "C", "A@x", "q", "2", "t1");
    assert r.Some?;
    assert r.value[0].email == "a@x" == r.value[1].email;
  }

  /** After registering a normalised address, signing in with it and the password finds the new user. */
  lemma LoginAfterRegister(users: seq<StoredUser>, name: string, email: string, password: string, freshId: string, now: string)
    requires NormalizeEmail(email) == email
    requires Registered(users, name, email, password, freshId, now).Some?
    ensures LoginUser(Registered(users, name, email, password, freshId, now).value, email, password) ==
      Some(PublicUser(NewUser(name, email, password, freshId, now)))
  {
    var r := Registered(users, name, email, password, freshId, now).value;
    FindIndexSnoc(users, NewUser(name, email, password, freshId, now), Credentials(email, password));
    assert FindIndex(users, Credentials(email, password)) == -1;
  }

  /** Signing in with the mixed-case address typed at registration does not find the new user. */
  lemma RawEmailLoginFails()
    ensures var r := Registered([], "C", "A@x", "q", "2", "t1");
      r.Some? && LoginUser(r.value, "A@x", "q").None?
  {
    NormalizeMixedCase();
  }

  /** The hook's state: the user table, the sign-in slot and the `AuthState`. */
  class AuthHook {
    var users: seq<StoredUser>
    var storedAuth: Option<StoredAuth>
    var state: AuthState

    /** The initial state: nobody signed in, loading. */
    constructor (users: seq<StoredUser>, storedAuth: Option<StoredAuth>)
      ensures this.users == users && this.storedAuth == storedAuth
      ensures state == AuthState(None, false, true)
    {
      this.users := users;
      this.storedAuth := storedAuth;
      state := AuthState(None, false, true);
    }

    /** A signed-in state has a user and a signed-out one has none. */
    predicate Consistent()
      reads this
    {
      state.isAuthenticated <==> state.user.Some?
    }

    /** The effect run on load: restore a stored user with an id; drop an unreadable slot. */
    method Restore()
      modifies this
      ensures users == old(users)
      ensures Restored(old(storedAuth)).Some? ==> state == AuthState(Restored(old(storedAuth)), true, false)
      ensures Restored(old(storedAuth)).None? ==> state == old(state).(loading := false)
      ensures storedAuth == if old(storedAuth) == Some(Unparsable) then None else old(storedAuth)
      ensures old(Consistent()) ==> Consistent()
      ensures !state.loading
    {
      var restored := Restored(storedAuth);
      if restored.Some? {
        state := AuthState(restored, true, false);
        return;
      }
      if storedAuth == Some(Unparsable) {
        storedAuth := None;
      }
      state := state.(loading := false);
    }

    /** `login`: sign in as the first user with that e-mail and password. */
    method Login(email: string, password: string) returns (ok: bool)
      modifies this
      ensures users == old(users)
      ensures ok <==> exists i :: 0 <= i < |users| && users[i].email == email && users[i].password == password
      ensures ok ==> state == AuthState(LoginUser(users, email, password), true, false)
      ensures ok ==> storedAuth == Some(Parsed(LoginUser(users, email, password)))
      ensures !ok ==> state == old(state) && storedAuth == old(storedAuth)
      ensures old(Consistent()) ==> Consistent()
    {
      var user := Find(users, Credentials(email, password));
      if user.Some? {
        var authUser := PublicUser(user.value);
        storedAuth := Some(Parsed(Some(authUser)));
        state := AuthState(Some(authUser), true, false);
        return true;
      }
      return false;
    }

    /** `register`: refuse an e-mail present as typed; otherwise add the user and sign in as them. */
    method Register(name: string, email: string, password: string, freshId: string, now: string) returns (ok: bool)
      modifies this
      ensures ok <==> Registered(old(users), name, email, password, freshId, now).Some?
      ensures !ok ==> users == old(users) && storedAuth == old(storedAuth) && state == old(state)
      ensures ok ==> users == Registered(old(users), name, email, password, freshId, now).value
      ensures ok ==> var u := Some(PublicUser(NewUser(name, email, password, freshId, now)));
        storedAuth == Some(Parsed(u)) && state == AuthState(u, true, false)
      ensures old(Consistent()) ==> Consistent()
    {
      if Find(users, EmailIs(email)).Some? {
        return false;
      }
      var newUser := StoredUser(freshId, Trim(name), NormalizeEmail(email), password, now);
      users := users + [newUser];
      var authUser := PublicUser(newUser);
      storedAuth := Some(Parsed(Some(authUser)));
      state := AuthState(Some(authUser), true, false);
      return true;
    }

    /** `logout`: clear the sign-in slot and the state. */
    method Logout()
      modifies this
      ensures users == old(users)
      ensures storedAuth == None
      ensures state == AuthState(None, false, false)
      ensures Consistent()
    {
      storedAuth := None;
      state := AuthState(None, false, false);
    }
  }
}
