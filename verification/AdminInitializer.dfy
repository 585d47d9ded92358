/** AdminInitializerService.init: at startup, when enabled and no ADMIN
    exists, create a default ADMIN, unless its login is already taken.
    Every failure is logged and swallowed, so `Init` returns a store and
    never an error; logging is not modelled. */
module AdminInitializer {
  import opened Common
  import opened Models
  import opened Repositories
  import opened Integrity

  /** The configuration defaults (app.admin.*). */
  const DefaultLogin: string := "admin"
  const DefaultPassword: string := "admin123"
  const DefaultAutoCreate: bool := true

  function Init(s: Store, autoCreate: bool, login: string, password: string, hash: string -> string): (r: Store)
    ensures !autoCreate ==> r == s
    ensures CountByRole(s, ADMIN) > 0 ==> r == s
    ensures CountByRole(s, ADMIN) == 0 && ExistsByLogin(s, login) ==> r == s
    ensures autoCreate && CountByRole(s, ADMIN) == 0 && !ExistsByLogin(s, login) ==>
      r == s.(users := s.users[s.nextUserId := User(login, hash(password), ADMIN)], nextUserId := s.nextUserId + 1)
  {
    if !autoCreate then s
    else if CountByRole(s, ADMIN) != 0 then s
    else if ExistsByLogin(s, login) then s
    else s.(users := s.users[s.nextUserId := User(login, hash(password), ADMIN)], nextUserId := s.nextUserId + 1)
  }

  /** Init under the default configuration. */
  function InitWithDefaults(s: Store, hash: string -> string): (r: Store)
    ensures CountByRole(s, ADMIN) == 0 && !ExistsByLogin(s, DefaultLogin) ==>
      s.nextUserId in r.users && r.users[s.nextUserId] == User(DefaultLogin, hash(DefaultPassword), ADMIN)
  {
    Init(s, DefaultAutoCreate, DefaultLogin, DefaultPassword, hash)
  }

  /** When init does create an admin, that admin is the only one. */
  lemma {:induction false} InitCreatesSoleAdmin(s: Store, autoCreate: bool, login: string, password: string, hash: string -> string)
    requires autoCreate && CountByRole(s, ADMIN) == 0 && !ExistsByLogin(s, login)
    ensures UsersWithRole(Init(s, autoCreate, login, password, hash), ADMIN) == {s.nextUserId}
    ensures CountByRole(Init(s, autoCreate, login, password, hash), ADMIN) == 1
  {
    var admin := User(login, hash(password), ADMIN);
    UsersWithRoleAfterWrite(s, s.nextUserId, admin, ADMIN);
    assert UsersWithRole(s, ADMIN) == {};
  }

  /** After an enabled init there is an ADMIN, unless the default login was
      already held by a non-ADMIN. */
  lemma {:induction false} InitLeavesAnAdmin(s: Store, login: string, password: string, hash: string -> string)
    ensures CountByRole(Init(s, true, login, password, hash), ADMIN) >= 1 || ExistsByLogin(s, login)
  {
    if CountByRole(s, ADMIN) == 0 && !ExistsByLogin(s, login) {
      InitCreatesSoleAdmin(s, true, login, password, hash);
    }
  }

  lemma InitPreservesValid(s: Store, autoCreate: bool, login: string, password: string, hash: string -> string)
    requires Valid(s)
    ensures Valid(Init(s, autoCreate, login, password, hash))
  {
  }
}
