/**
 * The users collection and UserService: accounts keyed by email, each with
 * a plaintext password and a role, added, listed, deleted and re-roled
 * under the service's rules.
 */
module Users {
  import opened Wrappers
  import opened JavaText
  import opened Validation

  /** A User: email, password and role. */
  datatype User = User(email: string, password: string, role: string)

  /** A stored account: what the collection holds under an email. */
  datatype Account = Account(password: string, role: string)

  /** The users collection, shared by AuthService and UserService. */
  class UserStore {
    var accounts: map<string, Account>

    constructor (accounts: map<string, Account>)
      ensures this.accounts == accounts
    {
      this.accounts := accounts;
    }
  }

  /** String.equalsIgnoreCase, for ASCII letters. */
  predicate EqualsIgnoreCase(a: string, b: string) {
    ToLower(a) == ToLower(b)
  }

  /** isValidRole: non-null and, ignoring case, admin, special or normal. */
  predicate IsValidRole(role: Option<string>) {
    role.Some? &&
    (EqualsIgnoreCase(role.value, "admin") || EqualsIgnoreCase(role.value, "special") || EqualsIgnoreCase(role.value, "normal"))
  }

  /** A valid role lower-cases to one of the three role names, and those are all. */
  lemma ValidRoleLowers(role: Option<string>)
    ensures IsValidRole(role) <==> role.Some? && ToLower(role.value) in Roles
  {
    if role.Some? {
      LowerHasNoUpper("admin");
      LowerHasNoUpper("special");
      LowerHasNoUpper("normal");
      assert ToLower("admin") == "admin";
      assert ToLower("special") == "special";
      assert ToLower("normal") == "normal";
    }
  }

  /** A role the service accepts also passes validateRole. */
  lemma ValidRolePassesValidation(role: Option<string>)
    ensures IsValidRole(role) ==> ValidateRole(role).Pass?
  {
    ValidRoleLowers(role);
    if IsValidRole(role) {
      var v := role.value;
      var t := ToLower(v);
      assert forall i :: 0 <= i < |t| ==> t[i] > ' ' by {
        assert t == "admin" || t == "special" || t == "normal";
      }
      assert !Trimmable(v[0]) by {
        assert t[0] == LowerChar(v[0]);
      }
      assert !Trimmable(v[|v| - 1]) by {
        assert t[|t| - 1] == LowerChar(v[|v| - 1]);
      }
      assert Trim(v) == v;
    }
  }

  /** The converse fails: validateRole trims a padded role, the service does not. */
  lemma PaddedRoleRejected()
    ensures !IsValidRole(Some(" admin")) && ValidateRole(Some(" admin")).Pass?
  {
    PaddedRoleIsNoRole();
    PaddedRoleTrims();
  }

  lemma PaddedRoleIsNoRole()
    ensures !IsValidRole(Some(" admin"))
  {
    var padded := " admin";
    assert ToLower(padded)[0] == ' ';
    assert ToLower("admin")[0] == 'a' && ToLower("special")[0] == 's' && ToLower("normal")[0] == 'n';
  }

  lemma PaddedRoleTrims()
    ensures ToLower(Trim(" admin")) == "admin"
  {
    var name := "admin";
    var padded := " " + name;
    assert padded[1..] == name;
    assert TrimStart(padded) == TrimStart(name) == name;
    assert TrimEnd(name) == name;
    forall i | 0 <= i < |name| ensures ToLower(name)[i] == name[i] {
      assert 'a' <= name[i] <= 'z';
    }
  }

  /** Every stored role is one of the three lower-case role names. */
  predicate CanonicalRoles(accounts: map<string, Account>) {
    forall email :: email in accounts ==> accounts[email].role in Roles
  }

  /** Some user in the list has this email. */
  predicate Listed(list: seq<User>, email: string) {
    exists i :: 0 <= i < |list| && list[i].email == email
  }

  /** Appending a user lists its email and keeps every email listed before. */
  lemma ListedAppend(list: seq<User>, u: User)
    ensures forall email :: Listed(list + [u], email) <==> Listed(list, email) || email == u.email
  {
    var longer := list + [u];
    forall email | Listed(list, email) ensures Listed(longer, email) {
      var i :| 0 <= i < |list| && list[i].email == email;
      assert longer[i] == list[i];
    }
    assert longer[|list|] == u;
  }

  /**
   * What getAllUsers has read while `pending` remains: one masked user per
   * account no longer pending, each email once.
   */
  predicate ListingSoFar(accounts: map<string, Account>, pending: set<string>, list: seq<User>) {
    && pending <= accounts.Keys
    && |list| + |pending| == |accounts|
    && (forall i :: 0 <= i < |list| ==>
          list[i].email in accounts && list[i].email !in pending
          && list[i].password == "***" && list[i].role == accounts[list[i].email].role)
    && (forall i, j :: 0 <= i < j < |list| ==> list[i].email != list[j].email)
    && (forall email :: email in accounts && email !in pending ==> Listed(list, email))
  }

  /** Reading one more pending account keeps ListingSoFar. */
  lemma ListingStep(accounts: map<string, Account>, pending: set<string>, list: seq<User>, email: string)
    requires ListingSoFar(accounts, pending, list) && email in pending
    ensures ListingSoFar(accounts, pending - {email}, list + [User(email, "***", accounts[email].role)])
  {
    var u := User(email, "***", accounts[email].role);
    var longer := list + [u];
    var rest := pending - {email};
    assert |rest| == |pending| - 1;
    assert longer[|list|] == u;
    assert forall i :: 0 <= i < |list| ==> longer[i] == list[i];
    assert forall i, j :: 0 <= i < j < |longer| ==> longer[i].email != longer[j].email by {
      forall i, j | 0 <= i < j < |longer| ensures longer[i].email != longer[j].email {
        if j == |list| {
          assert list[i].email !in pending;
        }
      }
    }
    ListedAppend(list, u);
  }

  /** The protected account deleteUser refuses to remove. */
  const AdminUser: string := "admin"

  class UserService {
    const users: UserStore

    constructor (users: UserStore)
      ensures this.users == users
    {
      this.users := users;
    }

    /**
     * addUser: false when the email is taken (checked first) or the role is
     * not valid; otherwise the account is stored with the role lower-cased.
     * A failing collection yields false and stores nothing.
     */
    method AddUser(username: string, password: string, role: Option<string>, storeFails: bool) returns (ok: bool)
      modifies users
      ensures ok <==> !storeFails && username !in old(users.accounts) && IsValidRole(role)
      ensures ok ==> users.accounts == old(users.accounts)[username := Account(password, ToLower(role.value))]
      ensures !ok ==> users.accounts == old(users.accounts)
      ensures CanonicalRoles(old(users.accounts)) ==> CanonicalRoles(users.accounts)
    {
      if storeFails {
        return false;
      }
      if username in users.accounts {
        return false;
      }
      if !IsValidRole(role) {
        return false;
      }
      ValidRoleLowers(role);
      users.accounts := users.accounts[username := Account(password, ToLower(role.value))];
      return true;
    }

    /**
     * getAllUsers: one User per stored account, password masked as "***";
     * a collection that throws after failsAt documents leaves the list
     * read so far.
     */
    method GetAllUsers(failsAt: Option<nat>) returns (list: seq<User>)
      ensures |list| == (if failsAt.Some? && failsAt.value < |users.accounts| then failsAt.value else |users.accounts|)
      ensures forall i :: 0 <= i < |list| ==>
        list[i].email in users.accounts && list[i].password == "***" && list[i].role == users.accounts[list[i].email].role
      ensures forall i, j :: 0 <= i < j < |list| ==> list[i].email != list[j].email
      ensures failsAt.None? ==> forall email :: email in users.accounts ==> Listed(list, email)
    {
      var accounts := users.accounts;
      list := [];
      var pending := accounts.Keys;
      while pending != {}
        invariant ListingSoFar(accounts, pending, list)
        invariant failsAt.Some? ==> |list| <= failsAt.value
        decreases pending
      {
        if failsAt == Some(|list|) {
          return;
        }
        var email :| email in pending;
        ListingStep(accounts, pending, list, email);
        list := list + [User(email, "***", accounts[email].role)];
        pending := pending - {email};
      }
    }

    /**
     * deleteUser: refuses the "admin" account; otherwise true exactly when
     * the collection reports the account deleted.
     */
    method DeleteUser(username: string, storeFails: bool) returns (ok: bool)
      modifies users
      ensures ok <==> username != AdminUser && !storeFails && username in old(users.accounts)
      ensures users.accounts == (if ok then old(users.accounts) - {username} else old(users.accounts))
      ensures CanonicalRoles(old(users.accounts)) ==> CanonicalRoles(users.accounts)
    {
      if username == AdminUser {
        return false;
      }
      if storeFails {
        return false;
      }
      var deletedCount := if username in users.accounts then 1 else 0;
      if deletedCount > 0 {
        users.accounts := users.accounts - {username};
        return true;
      }
      return false;
    }

    /**
     * updateUserRole: a valid role is written lower-cased to the account
     * with that email; true exactly when an account was modified.
     */
    method UpdateUserRole(username: string, newRole: Option<string>, storeFails: bool) returns (ok: bool)
      modifies users
      ensures ok <==> IsValidRole(newRole) && !storeFails && username in old(users.accounts)
      ensures ok ==>
        users.accounts == old(users.accounts)[username := old(users.accounts)[username].(role := ToLower(newRole.value))]
      ensures !ok ==> users.accounts == old(users.accounts)
      ensures CanonicalRoles(old(users.accounts)) ==> CanonicalRoles(users.accounts)
    {
      if !IsValidRole(newRole) {
        return false;
      }
      if storeFails {
        return false;
      }
      ValidRoleLowers(newRole);
      var modifiedCount := if username in users.accounts then 1 else 0;
      if modifiedCount > 0 {
        users.accounts := users.accounts[username := users.accounts[username].(role := ToLower(newRole.value))];
        return true;
      }
      return false;
    }
  }
}
