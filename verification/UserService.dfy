/** UserService: create, delete, change role, change password. Deletion and
    role change guard the last administrator.

    Password hashing and verification are passed in as functions; nothing is
    assumed about them. */
module UserService {
  import opened Common
  import opened Models
  import opened Repositories
  import opened Integrity

  function AdminCount(s: Store): nat {
    CountByRole(s, ADMIN)
  }

  /** createUser: a taken login is refused; otherwise one user is added with
      the login, the hash of the password and the role. */
  function CreateUser(s: Store, login: string, password: string, role: Role, hash: string -> string): (r: Step<UserId>)
    ensures r.Fail? <==> ExistsByLogin(s, login)
    ensures r.Fail? ==> r.error == Error(IllegalArgument, DuplicateLogin)
    ensures r.Done? ==>
      && r.out == s.nextUserId
      && r.store == s.(users := s.users[r.out := User(login, hash(password), role)], nextUserId := s.nextUserId + 1)
  {
    if ExistsByLogin(s, login) then Fail(Error(IllegalArgument, DuplicateLogin))
    else
      var id := s.nextUserId;
      Done(s.(users := s.users[id := User(login, hash(password), role)], nextUserId := id + 1), id)
  }

  /** deleteUser: a missing user is refused; an ADMIN is refused while at
      most one ADMIN exists; any other user is removed without counting.
      The user's profile goes with it (the one-to-one mapping cascades). */
  function DeleteUser(s: Store, id: UserId): (r: Step<()>)
    ensures id !in s.users ==> r == Fail(Error(IllegalArgument, UserNotFound))
    ensures id in s.users ==>
      (r.Fail? <==> s.users[id].role == ADMIN && AdminCount(s) <= 1)
    ensures id in s.users && r.Fail? ==> r.error == Error(IllegalState, LastAdmin)
    ensures r.Done? ==> r.store == s.(users := s.users - {id}, profiles := s.profiles - {id})
  {
    if id !in s.users then Fail(Error(IllegalArgument, UserNotFound))
    else if s.users[id].role == ADMIN && AdminCount(s) <= 1 then Fail(Error(IllegalState, LastAdmin))
    else Done(s.(users := s.users - {id}, profiles := s.profiles - {id}), ())
  }

  /** updateUserRole: refused only for a missing user, or when an ADMIN would
      lose the role while at most one ADMIN exists; otherwise only the role
      changes. */
  function UpdateUserRole(s: Store, id: UserId, newRole: Role): (r: Step<User>)
    ensures id !in s.users ==> r == Fail(Error(IllegalArgument, UserNotFound))
    ensures id in s.users ==>
      (r.Fail? <==> s.users[id].role == ADMIN && newRole != ADMIN && AdminCount(s) <= 1)
    ensures id in s.users && r.Fail? ==> r.error == Error(IllegalState, LastAdmin)
    ensures r.Done? ==>
      && r.out == s.users[id].(role := newRole)
      && r.store == s.(users := s.users[id := r.out])
  {
    if id !in s.users then Fail(Error(IllegalArgument, UserNotFound))
    else
      var user := s.users[id];
      if user.role == ADMIN && newRole != ADMIN && AdminCount(s) <= 1 then Fail(Error(IllegalState, LastAdmin))
      else
        var updated := user.(role := newRole);
        Done(s.(users := s.users[id := updated]), updated)
  }

  /** changePassword: the current password must verify against the stored
      hash; then the stored hash becomes the hash of the new password. */
  function ChangePassword(s: Store, id: UserId, current: string, newPassword: string,
                          hash: string -> string, verify: (string, string) -> bool): (r: Step<()>)
    ensures id !in s.users ==> r == Fail(Error(IllegalArgument, UserNotFound))
    ensures id in s.users ==> (r.Fail? <==> !verify(current, s.users[id].passwordHash))
    ensures id in s.users && r.Fail? ==> r.error == Error(IllegalArgument, WrongPassword)
    ensures r.Done? ==>
      r.store == s.(users := s.users[id := s.users[id].(passwordHash := hash(newPassword))])
  {
    if id !in s.users then Fail(Error(IllegalArgument, UserNotFound))
    else if !verify(current, s.users[id].passwordHash) then Fail(Error(IllegalArgument, WrongPassword))
    else Done(s.(users := s.users[id := s.users[id].(passwordHash := hash(newPassword))]), ())
  }

  // ---- Invariants

  lemma CreateUserPreservesValid(s: Store, login: string, password: string, role: Role, hash: string -> string)
    requires Valid(s)
    ensures CreateUser(s, login, password, role, hash).Done? ==> Valid(CreateUser(s, login, password, role, hash).store)
  {
  }

  lemma DeleteUserPreservesValid(s: Store, id: UserId)
    requires Valid(s)
    ensures DeleteUser(s, id).Done? ==> Valid(DeleteUser(s, id).store)
  {
  }

  lemma UpdateUserRolePreservesValid(s: Store, id: UserId, newRole: Role)
    requires Valid(s)
    ensures UpdateUserRole(s, id, newRole).Done? ==> Valid(UpdateUserRole(s, id, newRole).store)
  {
  }

  lemma ChangePasswordPreservesValid(s: Store, id: UserId, current: string, newPassword: string,
                                     hash: string -> string, verify: (string, string) -> bool)
    requires Valid(s)
    ensures ChangePassword(s, id, current, newPassword, hash, verify).Done? ==>
      Valid(ChangePassword(s, id, current, newPassword, hash, verify).store)
  {
  }

  // ---- The last-administrator guard

  /** Deleting a user never leaves a store that had an ADMIN without one. */
  lemma {:induction false} DeleteUserKeepsAnAdmin(s: Store, id: UserId)
    requires AdminCount(s) >= 1
    ensures DeleteUser(s, id).Done? ==> AdminCount(DeleteUser(s, id).store) >= 1
  {
    var r := DeleteUser(s, id);
    if r.Done? {
      UsersWithRoleAfterRemove(s, id, ADMIN);
      if id in UsersWithRole(s, ADMIN) {
        RemoveOne(UsersWithRole(s, ADMIN), id);
      } else {
        assert UsersWithRole(s, ADMIN) - {id} == UsersWithRole(s, ADMIN);
      }
    }
  }

  /** Changing a role never leaves a store that had an ADMIN without one. */
  lemma {:induction false} UpdateUserRoleKeepsAnAdmin(s: Store, id: UserId, newRole: Role)
    requires AdminCount(s) >= 1
    ensures UpdateUserRole(s, id, newRole).Done? ==> AdminCount(UpdateUserRole(s, id, newRole).store) >= 1
  {
    var r := UpdateUserRole(s, id, newRole);
    if r.Done? {
      var admins := UsersWithRole(s, ADMIN);
      UsersWithRoleAfterWrite(s, id, r.out, ADMIN);
      if newRole == ADMIN {
        assert id in UsersWithRole(r.store, ADMIN);
      } else if id in admins {
        RemoveOne(admins, id);
      } else {
        assert admins - {id} == admins;
      }
    }
  }

  /** With exactly two ADMINs, removing one of them succeeds and leaves one. */
  lemma {:induction false} DeleteOneOfTwoAdmins(s: Store, id: UserId)
    requires id in s.users && s.users[id].role == ADMIN
    requires AdminCount(s) == 2
    ensures DeleteUser(s, id).Done?
    ensures AdminCount(DeleteUser(s, id).store) == 1
  {
    UsersWithRoleAfterRemove(s, id, ADMIN);
    RemoveOne(UsersWithRole(s, ADMIN), id);
  }

  /** With exactly two ADMINs, demoting one of them succeeds and leaves one. */
  lemma {:induction false} DemoteOneOfTwoAdmins(s: Store, id: UserId, newRole: Role)
    requires id in s.users && s.users[id].role == ADMIN && newRole != ADMIN
    requires AdminCount(s) == 2
    ensures UpdateUserRole(s, id, newRole).Done?
    ensures AdminCount(UpdateUserRole(s, id, newRole).store) == 1
  {
    UsersWithRoleAfterWrite(s, id, s.users[id].(role := newRole), ADMIN);
    RemoveOne(UsersWithRole(s, ADMIN), id);
  }

  /** The sole ADMIN cannot be demoted; once a second ADMIN has been created,
      the same demotion goes through. */
  lemma {:induction false} SecondAdminUnblocksDemotion(s: Store, root: UserId, newRole: Role,
                                                       login: string, password: string, hash: string -> string)
    requires Valid(s)
    requires root in s.users && s.users[root].role == ADMIN && newRole != ADMIN
    requires AdminCount(s) == 1
    requires !ExistsByLogin(s, login)
    ensures UpdateUserRole(s, root, newRole) == Fail(Error(IllegalState, LastAdmin))
    ensures UpdateUserRole(CreateUser(s, login, password, ADMIN, hash).store, root, newRole).Done?
  {
    var s' := CreateUser(s, login, password, ADMIN, hash).store;
    var newId := s.nextUserId;
    assert newId !in s.users;
    UsersWithRoleAfterWrite(s, newId, User(login, hash(password), ADMIN), ADMIN);
    assert UsersWithRole(s', ADMIN) == UsersWithRole(s, ADMIN) + {newId};
    assert |UsersWithRole(s', ADMIN)| == 2 by {
      assert newId !in UsersWithRole(s, ADMIN);
    }
  }
}
