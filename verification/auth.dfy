/**
 * AuthService: a login session over the users collection and the table of
 * which role may perform which action.
 */
module Auth {
  import opened Wrappers
  import opened Users
  import opened Validation

  // ---- the permission table ---------------------------------------------

  /** The switch of hasPermission for a logged-in user with this role; roles compare case-sensitively. */
  predicate Permits(role: string, action: string) {
    if action == "ADD_USER" || action == "MANAGE_USERS" then role == "admin"
    else if action == "ADD_CRIME" || action == "EDIT_CRIME" || action == "DELETE_CRIME" then role == "admin" || role == "special"
    else action == "VIEW_CRIMES" || action == "SEARCH_CRIMES"
  }

  /** Whatever a special user may do, an admin may; whatever a normal user may do, a special user may. */
  lemma RolesNest(action: string)
    ensures Permits("special", action) ==> Permits("admin", action)
    ensures Permits("normal", action) ==> Permits("special", action)
  {
  }

  /** The nesting is strict: admins alone manage users, and normal users cannot change records. */
  lemma RolesDiffer()
    ensures Permits("admin", "ADD_USER") && !Permits("special", "ADD_USER")
    ensures Permits("special", "DELETE_CRIME") && !Permits("normal", "DELETE_CRIME")
  {
  }

  /** A role that is none of the three names exactly, such as "Admin", may only view and search. */
  lemma OtherRolesOnlyRead(role: string, action: string)
    requires role != "admin" && role != "special"
    ensures Permits(role, action) <==> action == "VIEW_CRIMES" || action == "SEARCH_CRIMES"
  {
  }

  /** An action outside the table is denied to every role. */
  lemma UnknownActionDenied(role: string, action: string)
    requires action !in {"ADD_USER", "MANAGE_USERS", "ADD_CRIME", "EDIT_CRIME", "DELETE_CRIME", "VIEW_CRIMES", "SEARCH_CRIMES"}
    ensures !Permits(role, action)
  {
  }

  // ---- the session ------------------------------------------------------

  class AuthService {
    const users: UserStore
    var currentUser: Option<User>

    /** AuthService(): nobody logged in. */
    constructor (users: UserStore)
      ensures this.users == users && currentUser.None?
    {
      this.users := users;
      currentUser := None;
    }

    /**
     * login: succeeds exactly when an account has this email and this
     * password, and then holds that account's user; a failure (no match, or
     * a collection that throws) keeps whoever was logged in.
     */
    method Login(email: string, password: string, storeFails: bool) returns (ok: bool)
      modifies this`currentUser
      ensures ok <==> !storeFails && email in users.accounts && users.accounts[email].password == password
      ensures ok ==> currentUser == Some(User(email, password, users.accounts[email].role))
      ensures !ok ==> currentUser == old(currentUser)
    {
      if storeFails {
        return false;
      }
      if email in users.accounts && users.accounts[email].password == password {
        var account := users.accounts[email];
        currentUser := Some(User(email, account.password, account.role));
        return true;
      }
      return false;
    }

    /** logout: nobody is logged in afterwards; a no-op when nobody was. */
    method Logout()
      modifies this`currentUser
      ensures !IsLoggedIn()
      ensures old(currentUser).None? ==> currentUser == old(currentUser)
    {
      if currentUser.Some? {
        currentUser := None;
      }
    }

    function GetCurrentUser(): Option<User>
      reads this
    {
      currentUser
    }

    predicate IsLoggedIn()
      reads this
    {
      currentUser.Some?
    }

    /** hasPermission: false for everyone when logged out, else the table for the user's role. */
    function HasPermission(action: string): (allowed: bool)
      reads this
      ensures allowed ==> IsLoggedIn()
      ensures allowed ==> Permits(currentUser.value.role, action)
      ensures IsLoggedIn() && Permits(currentUser.value.role, action) ==> allowed
    {
      if currentUser.None? then false else Permits(currentUser.value.role, action)
    }

    /** getCurrentUserRole: null exactly when nobody is logged in. */
    function GetCurrentUserRole(): (role: Option<string>)
      reads this
      ensures role.None? <==> !IsLoggedIn()
      ensures role.Some? ==> role.value == currentUser.value.role
    {
      if currentUser.Some? then Some(currentUser.value.role) else None
    }
  }

  /** Whatever any of the three roles may do, an admin may. */
  lemma AdminMayAll(role: string, action: string)
    requires role in Roles
    ensures Permits(role, action) ==> Permits("admin", action)
  {
    RolesNest(action);
  }
}
