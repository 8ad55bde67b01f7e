/** The user entity and `UserStore`, the ordered, in-memory collection of users
    that owns identifier assignment, the e-mail gate on insert, lookup,
    removal and the per-role queries. */
module Users {
  import opened Text
  import opened Seqs
  import EmailFormat

  /** What a user holds at one moment (the creation timestamp is not modelled). */
  datatype UserInfo = UserInfo(id: int, name: string, email: string, role: string, avatar: string)

  /** One field of `updateInfo`: a non-blank argument replaces the field with its trimmed form. */
  function Pick(arg: string, current: string): string {
    if IsBlank(arg) then current else Trim(arg)
  }

  /** The record that `updateInfo(name, email, role)` leaves. */
  function Updated(u: UserInfo, name: string, email: string, role: string): UserInfo {
    u.(name := Pick(name, u.name), email := Pick(email, u.email), role := Pick(role, u.role))
  }

  /** What `updateInfo` promises: the id and avatar stay; each of name, e-mail
      and role is replaced exactly when its argument is not blank, and then by
      a trimmed, non-blank value; all-blank arguments change nothing. */
  lemma UpdatedFields(u: UserInfo, name: string, email: string, role: string)
    ensures var r := Updated(u, name, email, role);
      && r.id == u.id && r.avatar == u.avatar
      && (IsBlank(name) ==> r.name == u.name)
      && (IsBlank(email) ==> r.email == u.email)
      && (IsBlank(role) ==> r.role == u.role)
      && (!IsBlank(name) ==> r.name == Trim(name) && !IsBlank(r.name) && Trim(r.name) == r.name)
      && (!IsBlank(email) ==> r.email == Trim(email) && !IsBlank(r.email) && Trim(r.email) == r.email)
      && (!IsBlank(role) ==> r.role == Trim(role) && !IsBlank(r.role) && Trim(r.role) == r.role)
      && (IsBlank(name) && IsBlank(email) && IsBlank(role) ==> r == u)
  {
    TrimIdempotent(name);
    TrimIdempotent(email);
    TrimIdempotent(role);
  }

  class User {
    const id: int
    var name: string
    var email: string
    var role: string
    const avatar: string

    constructor (id: int, name: string, email: string, role: string, avatar: string)
      ensures Info() == UserInfo(id, name, email, role, avatar)
    {
      this.id := id;
      this.name := name;
      this.email := email;
      this.role := role;
      this.avatar := avatar;
    }

    function Info(): UserInfo
      reads this
    {
      UserInfo(id, name, email, role, avatar)
    }

    /** Replaces each of name, e-mail and role by its trimmed argument when
        that argument is not blank. */
    method UpdateInfo(name: string, email: string, role: string)
      modifies this
      ensures Info() == Updated(old(Info()), name, email, role)
    {
      if !IsBlank(name) { this.name := Trim(name); }
      if !IsBlank(email) { this.email := Trim(email); }
      if !IsBlank(role) { this.role := Trim(role); }
    }

    /** `this.name || 'Anonymous'` */
    function DisplayName(): (r: string)
      reads this
      ensures r != []
      ensures name != [] ==> r == name
      ensures name == [] ==> r == "Anonymous"
    {
      if name != [] then name else "Anonymous"
    }

    function IsValidEmail(): (ok: bool)
      reads this
      ensures ok <==> EmailFormat.MatchesPattern(email)
    {
      EmailFormat.IsValidEmail(email)
    }
  }

  function UserId(u: User): int {
    u.id
  }

  function IdsOf(us: seq<User>): seq<int> {
    seq(|us|, i requires 0 <= i < |us| => us[i].id)
  }

  /** The records of a list of users, position by position. */
  function InfosOf(us: seq<User>): (r: seq<UserInfo>)
    reads us
    ensures |r| == |us| && forall i | 0 <= i < |us| :: r[i] == us[i].Info()
  {
    if us == [] then [] else [us[0].Info()] + InfosOf(us[1..])
  }

  /** In a list with unique ids, the first user holding an id is the only
      one: no earlier record has the id and every other position holds a
      different object. */
  lemma FirstHolder(us: seq<User>, id: int, k: nat)
    requires UniqueIds(us) && k == FirstIndex(IdsOf(us), id) && k < |us|
    ensures forall i | 0 <= i < k :: InfosOf(us)[i].id != id
    ensures forall j | 0 <= j < |us| && j != k :: us[j] != us[k]
  {
    forall i | 0 <= i < k ensures InfosOf(us)[i].id != id {
      assert IdsOf(us)[i] == us[i].id;
    }
    forall j | 0 <= j < |us| && j != k ensures us[j] != us[k] {
      assert UserId(us[j]) != UserId(us[k]);
    }
  }

  /** When only the user at position `k` changed, the records differ from the
      earlier ones `before` at that position only. */
  lemma InfosAfterOneChange(us: seq<User>, k: nat, before: seq<UserInfo>)
    requires k < |us| == |before|
    requires forall j | 0 <= j < |us| && j != k :: us[j].Info() == before[j]
    ensures InfosOf(us) == before[k := us[k].Info()]
  {
  }

  /** No two users share an identifier. */
  ghost predicate UniqueIds(us: seq<User>) {
    DistinctKeys(us, UserId)
  }

  /** `users.filter(user => user.id !== userId)` */
  function WithoutId(us: seq<User>, id: int): (r: seq<User>)
    ensures IsSubseq(r, us)
    ensures forall u | u in r :: u in us && u.id != id
    ensures forall u | u in us && u.id != id :: u in r
    ensures (forall u | u in us :: u.id != id) ==> r == us
  {
    Filter(us, (u: User) => u.id != id)
  }

  /** Removal by id keeps every occurrence of a user with another id and none with the id. */
  lemma WithoutIdCounts(us: seq<User>, id: int, u: User)
    ensures multiset(WithoutId(us, id))[u] == if u.id != id then multiset(us)[u] else 0
  {
    FilterCounts(us, (v: User) => v.id != id, u);
  }

  /** `users.filter(user => user.role === role)` */
  function WithRole(us: seq<User>, role: string): (r: seq<User>)
    reads us
    ensures IsSubseq(r, us)
    ensures forall u | u in r :: u in us && u.role == role
    ensures forall u | u in us && u.role == role :: u in r
    ensures |r| <= |us|
  {
    if us == [] then []
    else if us[0].role == role then [us[0]] + WithRole(us[1..], role)
    else WithRole(us[1..], role)
  }

  /** The role filter keeps every occurrence of a user with the role and none of the others. */
  lemma {:induction false} WithRoleCounts(us: seq<User>, role: string, u: User)
    ensures multiset(WithRole(us, role))[u] == if u.role == role then multiset(us)[u] else 0
  {
    if us != [] {
      WithRoleCounts(us[1..], role, u);
      assert us == [us[0]] + us[1..];
    }
  }

  /** Users of three different roles are at most all the users. */
  lemma {:induction false} DistinctRolesBounded(us: seq<User>, r1: string, r2: string, r3: string)
    requires r1 != r2 && r1 != r3 && r2 != r3
    ensures |WithRole(us, r1)| + |WithRole(us, r2)| + |WithRole(us, r3)| <= |us|
  {
    if us != [] {
      DistinctRolesBounded(us[1..], r1, r2, r3);
    }
  }

  /** `updateInfo` applied, through a lookup by id, to the first record with that id. */
  function UpdateById(rows: seq<UserInfo>, id: int, name: string, email: string, role: string): (r: seq<UserInfo>)
    ensures |r| == |rows|
    ensures forall i | 0 <= i < |rows| :: r[i].id == rows[i].id
    ensures forall i | 0 <= i < |rows| && rows[i].id != id :: r[i] == rows[i]
  {
    if rows == [] then []
    else if rows[0].id == id then
      var r := [Updated(rows[0], name, email, role)] + rows[1..];
      assert forall i | 0 < i < |rows| :: r[i] == rows[i];
      r
    else
      var rest := UpdateById(rows[1..], id, name, email, role);
      var r := [rows[0]] + rest;
      assert forall i | 0 < i < |rows| :: r[i] == rest[i - 1] && rows[i] == rows[1..][i - 1];
      r
  }

  /** The record changed is the one at the first position holding the id; nothing changes when no record holds it. */
  lemma {:induction false} UpdateByIdAt(rows: seq<UserInfo>, id: int, name: string, email: string, role: string, k: nat)
    requires k <= |rows| && forall i | 0 <= i < k :: rows[i].id != id
    requires k < |rows| ==> rows[k].id == id
    ensures k < |rows| ==> UpdateById(rows, id, name, email, role) == rows[k := Updated(rows[k], name, email, role)]
    ensures k == |rows| ==> UpdateById(rows, id, name, email, role) == rows
  {
    if rows == [] {
    } else if rows[0].id == id {
      assert k == 0;
      ReplaceHead(rows, Updated(rows[0], name, email, role));
    } else {
      var tail := rows[1..];
      UpdateByIdAt(tail, id, name, email, role, k - 1);
      if k < |rows| {
        ReplaceAfterHead(rows, k, Updated(rows[k], name, email, role));
      } else {
        assert [rows[0]] + tail == rows;
      }
    }
  }

  /** Sending the same edit twice leaves what sending it once left. */
  lemma {:induction false} UpdateByIdTwice(rows: seq<UserInfo>, id: int, name: string, email: string, role: string)
    ensures var once := UpdateById(rows, id, name, email, role);
      UpdateById(once, id, name, email, role) == once
  {
    if rows != [] && rows[0].id != id {
      UpdateByIdTwice(rows[1..], id, name, email, role);
    }
  }

  /** A seeded record: every example address lies in the `example.com` domain. */
  function Seed(id: int, name: string, local: string, role: string, avatar: string): UserInfo {
    UserInfo(id, name, local + "@example.com", role, avatar)
  }

  /** The five example users the store is seeded with. */
  function DefaultRows(): seq<UserInfo> {
    [ Seed(1, "Alice Johnson", "alice", "Developer", "A"),
      Seed(2, "Bob Smith", "bob", "Designer", "B"),
      Seed(3, "Carol White", "carol", "Manager", "C"),
      Seed(4, "David Brown", "david", "Developer", "D"),
      Seed(5, "Eve Wilson", "eve", "Developer", "E") ]
  }

  /** An address `local@example.com` passes the format check whenever the local part is a plain run. */
  lemma ExampleAddress(local: string)
    requires EmailFormat.PlainRun(local)
    ensures EmailFormat.MatchesPattern(local + "@example.com")
  {
    var s := local + "@example.com";
    var at, dot := |local|, |local| + 8;
    assert s[..at] == local;
    assert s[at] == '@' && s[dot] == '.';
    assert s[at + 1..dot] == "example";
    assert s[dot + 1..] == "com";
    assert EmailFormat.PlainRun("example");
    assert EmailFormat.PlainRun("com");
  }

  /** The seeded e-mail at position `i` passes the format check. */
  lemma DefaultEmailValid(i: nat)
    requires i < |DefaultRows()|
    ensures EmailFormat.MatchesPattern(DefaultRows()[i].email)
  {
    if i == 0 { ExampleAddress("alice"); }
    else if i == 1 { ExampleAddress("bob"); }
    else if i == 2 { ExampleAddress("carol"); }
    else if i == 3 { ExampleAddress("david"); }
    else { ExampleAddress("eve"); }
  }

  /** Every seeded e-mail passes the format check, although the seed bypasses it. */
  lemma DefaultEmailsValid()
    ensures forall r | r in DefaultRows() :: EmailFormat.MatchesPattern(r.email)
  {
    forall r | r in DefaultRows() ensures EmailFormat.MatchesPattern(r.email) {
      var i :| 0 <= i < |DefaultRows()| && DefaultRows()[i] == r;
      DefaultEmailValid(i);
    }
  }

  /** A fresh user holding the record `r`. */
  method NewUser(r: UserInfo) returns (u: User)
    ensures fresh(u) && u.Info() == r
  {
    u := new User(r.id, r.name, r.email, r.role, r.avatar);
  }

  /** Users whose records are `rows`, position by position, have `rows` as their records. */
  lemma InfosMatch(us: seq<User>, rows: seq<UserInfo>)
    requires |us| == |rows| && forall i | 0 <= i < |us| :: us[i].Info() == rows[i]
    ensures InfosOf(us) == rows
  {
  }

  /** Users numbered 1, 2, 3, ... in order have unique ids. */
  lemma NumberedUsersUnique(us: seq<User>, a: User, b: User, c: User, d: User, e: User)
    requires us == [a, b, c, d, e]
    requires a.id == 1 && b.id == 2 && c.id == 3 && d.id == 4 && e.id == 5
    ensures UniqueIds(us)
  {
  }

  class UserStore {
    var users: seq<User>

    /** Identifiers stay unique. */
    ghost predicate Valid()
      reads this
    {
      UniqueIds(users)
    }

    /** The stored records, in insertion order. */
    function Rows(): seq<UserInfo>
      reads this, users
    {
      InfosOf(users)
    }

    constructor ()
      ensures Valid() && Rows() == DefaultRows()
      ensures forall u | u in users :: fresh(u)
    {
      users := [];
      new;
      InitializeDefaultUsers();
    }

    /** Replaces the collection by the five example users. */
    method InitializeDefaultUsers()
      modifies this
      ensures Valid() && Rows() == DefaultRows()
      ensures forall u | u in users :: fresh(u)
    {
      var rows := DefaultRows();
      var a := NewUser(rows[0]);
      var b := NewUser(rows[1]);
      var c := NewUser(rows[2]);
      var d := NewUser(rows[3]);
      var e := NewUser(rows[4]);
      users := [a, b, c, d, e];
      InfosMatch(users, DefaultRows());
      NumberedUsersUnique(users, a, b, c, d, e);
    }

    /** `Math.max(...ids, 0) + 1`: 1 for an empty store, otherwise one more than the largest id. */
    function GenerateId(): (id: int)
      reads this
      ensures id >= 1
      ensures forall u | u in users :: u.id < id
      ensures users == [] ==> id == 1
      ensures id == 1 || id - 1 in IdsOf(users)
    {
      var m := MaxOrZero(IdsOf(users));
      assert forall u | u in users :: u.id in IdsOf(users) by {
        forall u | u in users ensures u.id in IdsOf(users) {
          var i :| 0 <= i < |users| && users[i] == u;
          assert IdsOf(users)[i] == u.id;
        }
      }
      m + 1
    }

    /** Creates a user with the next id and appends it when its e-mail passes the format check. */
    method AddUser(name: string, email: string, role: string, avatar: string) returns (u: User?)
      requires Valid()
      modifies this
      ensures Valid()
      ensures EmailFormat.MatchesPattern(email) ==>
        && u != null && fresh(u)
        && u.Info() == UserInfo(old(GenerateId()), name, email, role, avatar)
        && users == old(users) + [u]
      ensures !EmailFormat.MatchesPattern(email) ==> u == null && users == old(users)
    {
      var user := new User(GenerateId(), name, email, role, avatar);
      if user.IsValidEmail() {
        users := users + [user];
        u := user;
      } else {
        u := null;
      }
    }

    /** Keeps exactly the users whose id differs, in their order. */
    method RemoveUser(id: int)
      requires Valid()
      modifies this
      ensures Valid()
      ensures users == WithoutId(old(users), id)
    {
      SubseqKeepsKeysDistinct(WithoutId(users, id), users, UserId);
      users := WithoutId(users, id);
    }

    /** `users.find(user => user.id === userId)` */
    function GetUser(id: int): (u: User?)
      reads this
      ensures u == null <==> forall v | v in users :: v.id != id
      ensures u == null <==> id !in IdsOf(users)
      ensures u != null ==> u in users && u.id == id && FirstIndex(IdsOf(users), id) < |users|
      ensures u != null ==> u == users[FirstIndex(IdsOf(users), id)]
    {
      var i := FirstIndex(IdsOf(users), id);
      if i < |users| then users[i]
      else
        assert forall v | v in users :: v.id != id by {
          forall v | v in users ensures v.id != id {
            var k :| 0 <= k < |users| && users[k] == v;
            assert IdsOf(users)[k] == v.id;
          }
        }
        null
    }

    function GetAllUsers(): seq<User>
      reads this
    {
      users
    }

    /** Exactly the users with the role, in insertion order. */
    function UsersByRole(role: string): (r: seq<User>)
      reads this, users
      ensures IsSubseq(r, users)
      ensures forall u | u in r :: u in users && u.role == role
      ensures forall u | u in users && u.role == role :: u in r
    {
      WithRole(users, role)
    }

    function TotalCount(): nat
      reads this
    {
      |users|
    }

    /** `getUsersByRole(role).length`, which never exceeds the total. */
    function CountByRole(role: string): (n: nat)
      reads this, users
      ensures n == |UsersByRole(role)| && n <= TotalCount()
    {
      |WithRole(users, role)|
    }

    method ClearAll()
      modifies this
      ensures Valid() && users == []
    {
      users := [];
    }
  }
}
