/** `UserController`: the layer between `UserStore` and the views. It rejects
    incomplete input, delegates changes to the store and tells its listeners
    after every successful add, every update of an existing id (even one that
    changes no field) and every delete. */
module UserControl {
  import opened Text
  import opened Seqs
  import EmailFormat
  import opened Users
  import opened Notify

  /** The figures `getUserStats` reports. */
  datatype UserStats = UserStats(total: nat, developers: nat, designers: nat, managers: nat)

  /** The role of each user, position by position. */
  function RolesOf(us: seq<User>): (r: seq<string>)
    reads us
    ensures |r| == |us| && forall i | 0 <= i < |us| :: r[i] == us[i].role
  {
    seq(|us|, i requires 0 <= i < |us| reads us => us[i].role)
  }

  class UserController {
    const userStore: UserStore
    const listeners: Listeners

    ghost predicate Valid()
      reads this, userStore
    {
      userStore.Valid()
    }

    constructor (store: UserStore)
      ensures userStore == store && fresh(listeners)
      ensures listeners.registered == [] && listeners.calls == [] && listeners.rounds == 0
    {
      userStore := store;
      listeners := new Listeners();
    }

    /** Rejects the request when any argument is empty; otherwise adds through
        the store, which refuses a malformed e-mail. Listeners hear of it
        exactly when a user was added. */
    method HandleAddUser(name: string, email: string, role: string, avatar: string) returns (u: User?)
      requires Valid()
      modifies userStore, listeners
      ensures Valid()
      ensures name == [] || email == [] || role == [] || avatar == [] ==>
        u == null && userStore.users == old(userStore.users) && unchanged(listeners)
      ensures name != [] && email != [] && role != [] && avatar != [] && !EmailFormat.MatchesPattern(email) ==>
        u == null && userStore.users == old(userStore.users) && unchanged(listeners)
      ensures name != [] && email != [] && role != [] && avatar != [] && EmailFormat.MatchesPattern(email) ==>
        && u != null && fresh(u)
        && u.Info() == UserInfo(old(userStore.GenerateId()), name, email, role, avatar)
        && userStore.users == old(userStore.users) + [u]
        && NotifiedOnce(listeners)
    {
      if name == [] || email == [] || role == [] || avatar == [] {
        return null;
      }
      u := userStore.AddUser(name, email, role, avatar);
      if u != null {
        listeners.NotifyAll();
      }
    }

    /** Removes every user with the id and notifies, whether or not one was removed. */
    method HandleDeleteUser(id: int)
      requires Valid()
      modifies userStore, listeners
      ensures Valid()
      ensures userStore.users == WithoutId(old(userStore.users), id)
      ensures NotifiedOnce(listeners)
    {
      userStore.RemoveUser(id);
      listeners.NotifyAll();
    }

    /** Applies `updateInfo` to the user with the id, in place, and notifies;
        a missing id changes nothing and notifies nobody. */
    method HandleUpdateUser(id: int, name: string, email: string, role: string) returns (u: User?)
      requires Valid()
      modifies listeners, userStore.users
      ensures Valid()
      ensures userStore.users == old(userStore.users)
      ensures userStore.Rows() == UpdateById(old(userStore.Rows()), id, name, email, role)
      ensures u == null <==> id !in IdsOf(userStore.users)
      ensures u == null ==> unchanged(listeners)
      ensures u != null ==> u in userStore.users && u.id == id && NotifiedOnce(listeners)
    {
      u := userStore.GetUser(id);
      ghost var users := userStore.users;
      ghost var rows := userStore.Rows();
      if u != null {
        ghost var k := FirstIndex(IdsOf(users), id);
        FirstHolder(users, id, k);
        u.UpdateInfo(name, email, role);
        InfosAfterOneChange(users, k, rows);
        UpdateByIdAt(rows, id, name, email, role, k);
        listeners.NotifyAll();
      } else {
        forall i | 0 <= i < |rows| ensures rows[i].id != id {
          assert IdsOf(users)[i] == rows[i].id;
        }
        UpdateByIdAt(rows, id, name, email, role, |rows|);
      }
    }

    /** The store's size and the sizes of its three role groups, which
        together never exceed the size since the roles differ. */
    function GetUserStats(): (s: UserStats)
      reads this, userStore, userStore.users
      ensures s.total == userStore.TotalCount()
      ensures s.developers == |userStore.UsersByRole("Developer")|
      ensures s.designers == |userStore.UsersByRole("Designer")|
      ensures s.managers == |userStore.UsersByRole("Manager")|
      ensures s.developers + s.designers + s.managers <= s.total
    {
      DistinctRolesBounded(userStore.users, "Developer", "Designer", "Manager");
      UserStats(userStore.TotalCount(), userStore.CountByRole("Developer"),
                userStore.CountByRole("Designer"), userStore.CountByRole("Manager"))
    }

    /** The roles in use, each once, in the order they first occur among the users. */
    function GetAvailableRoles(): (roles: seq<string>)
      reads this, userStore, userStore.users
      ensures NoDups(roles)
      ensures forall r | r in roles :: exists u | u in userStore.users :: u.role == r
      ensures forall u | u in userStore.users :: u.role in roles
      ensures forall i, j | 0 <= i < j < |roles| ::
        FirstIndex(RolesOf(userStore.users), roles[i]) < FirstIndex(RolesOf(userStore.users), roles[j])
    {
      var all := RolesOf(userStore.users);
      var roles := Distinct(all);
      assert forall r | r in roles :: exists u | u in userStore.users :: u.role == r by {
        forall r | r in roles ensures exists u | u in userStore.users :: u.role == r {
          var i :| 0 <= i < |all| && all[i] == r;
          assert userStore.users[i] in userStore.users;
        }
      }
      assert forall u | u in userStore.users :: u.role in roles by {
        forall u | u in userStore.users ensures u.role in roles {
          var i :| 0 <= i < |userStore.users| && userStore.users[i] == u;
          assert all[i] == u.role;
        }
      }
      roles
    }

    /** The controller's own e-mail check, the same pattern `User.isValidEmail` tests. */
    function ValidateEmail(email: string): (ok: bool)
      ensures ok <==> EmailFormat.MatchesPattern(email)
    {
      EmailFormat.IsValidEmail(email)
    }
  }

  /** The controller's check and the user's own check agree on the user's address. */
  lemma ValidateEmailAgrees(c: UserController, u: User)
    ensures c.ValidateEmail(u.email) == u.IsValidEmail()
  {
  }

  /** The address used in the scenario below has no `@`, so the format check refuses it. */
  lemma NotAnEmailRejected()
    ensures !EmailFormat.MatchesPattern("not-an-email")
  {
    EmailFormat.WithoutAtRejected("not-an-email");
  }

  /** Adding a user whose e-mail has no `@` to the seeded store is refused
      and leaves the total as it was. */
  method RejectedAddress() returns (u: User?, before: nat, after: nat)
    ensures u == null && after == before
  {
    var store := new UserStore();
    var c := new UserController(store);
    before := c.GetUserStats().total;
    NotAnEmailRejected();
    u := c.HandleAddUser("A", "not-an-email", "Developer", "A");
    after := c.GetUserStats().total;
  }
}
