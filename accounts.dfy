/** user_manager.py: the users table and what each `UserManager` operation does to it, as
    functions of the table. The password hash, the clock and the soft-delete timestamp are
    inputs. The UNIQUE username, its VARCHAR(50) width and the ENUM role of init_db.py make a
    statement that would break them fail, leaving the table as it was. */
module Accounts {
  import opened Wrappers
  import opened Seqs

  /** `username VARCHAR(50)` */
  const MaxUsername := 50

  /** Seconds in `timedelta(days=7)`. */
  const WeekSeconds := 7 * 24 * 60 * 60

  datatype User = User(
    id: nat, username: string, passwordHash: string, role: string, createdAt: int,
    lastLogin: Option<int>, isActive: bool)

  /** The users table and the next AUTO_INCREMENT id. */
  datatype UserTable = UserTable(rows: seq<User>, nextId: nat)

  /** `role ENUM('admin', 'user')` */
  predicate IsRole(role: string)
  {
    role == "admin" || role == "user"
  }

  predicate UsernamesUnique(rows: seq<User>)
  {
    forall i, j :: 0 <= i < j < |rows| ==> rows[i].username != rows[j].username
  }

  /** Ids grow with the row order and stay below the next id. */
  predicate IdsIncreasing(rows: seq<User>, nextId: nat)
  {
    (forall i, j :: 0 <= i < j < |rows| ==> rows[i].id < rows[j].id)
    && forall i :: 0 <= i < |rows| ==> rows[i].id < nextId
  }

  predicate ColumnsValid(rows: seq<User>)
  {
    forall i :: 0 <= i < |rows| ==> IsRole(rows[i].role) && |rows[i].username| <= MaxUsername
  }

  /** The constraints of the users table hold. */
  predicate WellFormed(t: UserTable)
  {
    UsernamesUnique(t.rows) && IdsIncreasing(t.rows, t.nextId) && ColumnsValid(t.rows)
  }

  /** `SELECT ... FROM users WHERE username = %s`: the position of the row. */
  function Find(rows: seq<User>, username: string): (r: Option<nat>)
    ensures r.Some? ==> r.value < |rows| && rows[r.value].username == username
    ensures r.None? <==> forall i :: 0 <= i < |rows| ==> rows[i].username != username
  {
    FirstIndex(rows, Named(username))
  }

  /** `user_exists` */
  predicate Exists(rows: seq<User>, username: string)
  {
    Find(rows, username).Some?
  }

  // ---------------------------------------------------------------- INSERT

  /** The row INSERT INTO users adds, or None when a constraint refuses it. */
  function Inserted(t: UserTable, row: User): (r: Option<UserTable>)
    ensures r.Some? <==> !Exists(t.rows, row.username) && IsRole(row.role) && |row.username| <= MaxUsername
    ensures r.Some? ==> r.value == UserTable(t.rows + [row.(id := t.nextId)], t.nextId + 1)
    ensures r.Some? && WellFormed(t) ==> WellFormed(r.value)
  {
    if Exists(t.rows, row.username) || !IsRole(row.role) || |row.username| > MaxUsername then None
    else
      var rows := t.rows + [row.(id := t.nextId)];
      assert forall i :: 0 <= i < |t.rows| ==> rows[i] == t.rows[i];
      Some(UserTable(rows, t.nextId + 1))
  }

  /** `add_user(username, password, role, is_active)` with `passwordHash` the hash of the
      password and `now` the clock: False when the name is taken or the role is not
      'admin'/'user' (or the name is too wide for its column), else one row is added. */
  function AddUser(t: UserTable, username: string, passwordHash: string, role: string, isActive: bool, now: int): (r: (UserTable, bool))
  {
    if Exists(t.rows, username) then (t, false)
    else if !IsRole(role) then (t, false)
    else
      var inserted := Inserted(t, User(0, username, passwordHash, role, now, None, isActive));
      if inserted.None? then (t, false) else (inserted.value, true)
  }

  /** What `add_user` does: it fails without change exactly when the username exists, the role
      is neither 'admin' nor 'user', or the name is wider than its column; otherwise it adds
      one active-or-not row with the hash, the role, the clock and no login, and keeps the
      table's constraints. */
  lemma AddUserEffect(t: UserTable, username: string, passwordHash: string, role: string, isActive: bool, now: int)
    ensures var r := AddUser(t, username, passwordHash, role, isActive, now);
      (!r.1 <==> Exists(t.rows, username) || !IsRole(role) || |username| > MaxUsername)
      && (!r.1 ==> r.0 == t)
      && (r.1 ==> r.0.rows == t.rows + [User(t.nextId, username, passwordHash, role, now, None, isActive)]
                  && Exists(r.0.rows, username))
      && (WellFormed(t) ==> WellFormed(r.0))
  {
    var r := AddUser(t, username, passwordHash, role, isActive, now);
    if r.1 {
      assert r.0.rows[|t.rows|].username == username;
    }
  }

  // ---------------------------------------------------------------- UPDATE / DELETE

  /** `UPDATE users SET ... WHERE username = %s`: `change` applied to the matching rows. */
  function UpdateWhere(rows: seq<User>, username: string, change: User -> User): (r: seq<User>)
    ensures |r| == |rows|
    ensures forall i :: 0 <= i < |rows| ==>
      r[i] == if rows[i].username == username then change(rows[i]) else rows[i]
  {
    if rows == [] then []
    else
      var last := rows[|rows| - 1];
      UpdateWhere(rows[..|rows| - 1], username, change) + [if last.username == username then change(last) else last]
  }

  /** The column changes the UPDATE statements make. */
  function NewHash(passwordHash: string): User -> User
  {
    (u: User) => u.(passwordHash := passwordHash)
  }

  function NewRole(role: string): User -> User
  {
    (u: User) => u.(role := role)
  }

  function NewStatus(activate: bool): User -> User
  {
    (u: User) => u.(isActive := activate)
  }

  /** `SET is_active = 0, username = %s` */
  function Renamed(newName: string): User -> User
  {
    (u: User) => u.(isActive := false, username := newName)
  }

  function Named(username: string): User -> bool
  {
    (u: User) => u.username == username
  }

  /** The rows DELETE FROM users WHERE username = %s keeps. */
  function Except(username: string): User -> bool
  {
    (u: User) => u.username != username
  }

  /** `update_password` */
  function UpdatePassword(t: UserTable, username: string, passwordHash: string): (r: (UserTable, bool))
  {
    if !Exists(t.rows, username) then (t, false)
    else (t.(rows := UpdateWhere(t.rows, username, NewHash(passwordHash))), true)
  }

  /** `update_role`: unknown users and roles other than 'admin'/'user' are refused. */
  function UpdateRole(t: UserTable, username: string, role: string): (r: (UserTable, bool))
  {
    if !Exists(t.rows, username) then (t, false)
    else if !IsRole(role) then (t, false)
    else (t.(rows := UpdateWhere(t.rows, username, NewRole(role))), true)
  }

  /** `toggle_user_status` */
  function SetActive(t: UserTable, username: string, activate: bool): (r: (UserTable, bool))
  {
    if !Exists(t.rows, username) then (t, false)
    else (t.(rows := UpdateWhere(t.rows, username, NewStatus(activate))), true)
  }

  /** The name a soft delete gives the user: `f"{username}_DELETED_{timestamp}"`. */
  function DeletedName(username: string, stamp: string): string
  {
    username + "_DELETED_" + stamp
  }

  /** `delete_user`: a soft delete deactivates and renames the user (refused, like the UPDATE,
      when the new name is taken or too wide); a hard delete removes the row. */
  function DeleteUser(t: UserTable, username: string, soft: bool, stamp: string): (r: (UserTable, bool))
  {
    if !Exists(t.rows, username) then (t, false)
    else if soft then
      var newName := DeletedName(username, stamp);
      if Exists(t.rows, newName) || |newName| > MaxUsername then (t, false)
      else (t.(rows := UpdateWhere(t.rows, username, Renamed(newName))), true)
    else (t.(rows := Filter(t.rows, Except(username))), true)
  }

  /** Every update and delete refuses an unknown username and then changes nothing. */
  lemma UnknownUserRefused(t: UserTable, username: string, passwordHash: string, role: string, activate: bool,
                           soft: bool, stamp: string)
    requires !Exists(t.rows, username)
    ensures UpdatePassword(t, username, passwordHash) == (t, false)
    ensures UpdateRole(t, username, role) == (t, false)
    ensures SetActive(t, username, activate) == (t, false)
    ensures DeleteUser(t, username, soft, stamp) == (t, false)
  {
  }

  /** Each update changes only its own column of the named user: every other row, and every
      other column of that user, stays as it was. */
  lemma UpdatesTouchOneColumn(t: UserTable, username: string, passwordHash: string, role: string, activate: bool)
    requires Exists(t.rows, username)
    ensures var p := UpdatePassword(t, username, passwordHash).0;
      var q := UpdateRole(t, username, role).0;
      var s := SetActive(t, username, activate).0;
      |p.rows| == |q.rows| == |s.rows| == |t.rows| && p.nextId == q.nextId == s.nextId == t.nextId
      && forall i :: 0 <= i < |t.rows| ==>
           var u := t.rows[i];
           (u.username != username ==> p.rows[i] == u && s.rows[i] == u && (IsRole(role) ==> q.rows[i] == u))
           && (u.username == username ==>
                 p.rows[i] == u.(passwordHash := passwordHash) && s.rows[i] == u.(isActive := activate)
                 && q.rows[i] == (if IsRole(role) then u.(role := role) else u))
  {
  }

  /** `update_role` accepts exactly 'admin' and 'user' for a known user. */
  lemma UpdateRoleAccepts(t: UserTable, username: string, role: string)
    ensures UpdateRole(t, username, role).1 <==> Exists(t.rows, username) && IsRole(role)
    ensures !IsRole(role) ==> UpdateRole(t, username, role).0 == t
  {
  }

  /** After a soft delete the old name is free, the new name belongs to the same row, now
      inactive, with its id, hash and role kept; no row is removed. */
  lemma SoftDeleteEffect(t: UserTable, username: string, stamp: string)
    requires UsernamesUnique(t.rows) && DeleteUser(t, username, true, stamp).1
    ensures var r := DeleteUser(t, username, true, stamp).0;
      var i := Find(t.rows, username).value;
      |r.rows| == |t.rows| && !Exists(r.rows, username)
      && r.rows[i] == t.rows[i].(username := DeletedName(username, stamp), isActive := false)
      && Find(r.rows, DeletedName(username, stamp)) == Some(i)
  {
    var r := DeleteUser(t, username, true, stamp).0;
    var i := Find(t.rows, username).value;
    var newName := DeletedName(username, stamp);
    assert |newName| > |username|;
    forall j | 0 <= j < |r.rows|
      ensures r.rows[j].username != username
      ensures j != i ==> r.rows[j].username != newName
    {
      if j != i {
        assert t.rows[j].username != username by {
          if j < i { assert t.rows[j].username != t.rows[i].username; }
          else { assert t.rows[i].username != t.rows[j].username; }
        }
      }
    }
    assert r.rows[i].username == newName;
    var k := Find(r.rows, newName).value;
    assert k == i;
  }

  /** After a hard delete the name is gone and every other row is kept, in order. */
  lemma HardDeleteEffect(t: UserTable, username: string, stamp: string)
    requires DeleteUser(t, username, false, stamp).1
    ensures var r := DeleteUser(t, username, false, stamp).0;
      !Exists(r.rows, username) && r.nextId == t.nextId
      && (forall u :: u in t.rows && u.username != username <==> u in r.rows)
      && |r.rows| == |t.rows| - Count(t.rows, Named(username))
  {
    var r := DeleteUser(t, username, false, stamp).0;
    forall j | 0 <= j < |r.rows| ensures r.rows[j].username != username {
      assert r.rows[j] in r.rows;
    }
    CountComplement(t.rows, Named(username), Except(username));
  }

  /** The rows matching `p` and those not matching it make up the whole sequence. */
  lemma {:induction false} CountComplement<T>(s: seq<T>, p: T -> bool, q: T -> bool)
    requires forall x :: q(x) == !p(x)
    ensures Count(s, p) + Count(s, q) == |s|
  {
    if s != [] {
      CountComplement(s[..|s| - 1], p, q);
    }
  }

  /** Updates and deletes keep the table's constraints. */
  lemma ChangesKeepWellFormed(t: UserTable, username: string, passwordHash: string, role: string, activate: bool,
                              soft: bool, stamp: string)
    requires WellFormed(t)
    ensures WellFormed(UpdatePassword(t, username, passwordHash).0)
    ensures WellFormed(UpdateRole(t, username, role).0)
    ensures WellFormed(SetActive(t, username, activate).0)
    ensures WellFormed(DeleteUser(t, username, soft, stamp).0)
  {
    UpdateKeepsWellFormed(t, username, NewHash(passwordHash));
    if IsRole(role) {
      UpdateKeepsWellFormed(t, username, NewRole(role));
    }
    UpdateKeepsWellFormed(t, username, NewStatus(activate));
    if soft {
      SoftDeleteKeepsWellFormed(t, username, stamp);
    } else {
      FilterKeepsWellFormed(t, Except(username));
    }
  }

  /** An update that keeps ids and names and yields valid roles keeps the constraints. */
  lemma UpdateKeepsWellFormed(t: UserTable, username: string, change: User -> User)
    requires WellFormed(t)
    requires forall u :: change(u).id == u.id && change(u).username == u.username && (IsRole(u.role) ==> IsRole(change(u).role))
    ensures WellFormed(t.(rows := UpdateWhere(t.rows, username, change)))
  {
    var r := UpdateWhere(t.rows, username, change);
    assert forall i :: 0 <= i < |r| ==>
      r[i].id == t.rows[i].id && r[i].username == t.rows[i].username && (IsRole(t.rows[i].role) ==> IsRole(r[i].role));
  }

  /** A soft delete keeps the constraints. */
  lemma SoftDeleteKeepsWellFormed(t: UserTable, username: string, stamp: string)
    requires WellFormed(t)
    ensures WellFormed(DeleteUser(t, username, true, stamp).0)
  {
    var r := DeleteUser(t, username, true, stamp);
    if r.1 {
      SoftDeleteEffect(t, username, stamp);
      var i := Find(t.rows, username).value;
      var newName := DeletedName(username, stamp);
      assert forall a :: 0 <= a < |r.0.rows| && a != i ==> r.0.rows[a] == t.rows[a];
      assert forall a :: 0 <= a < |r.0.rows| && a != i ==> r.0.rows[a].username != newName;
      RenameOneKeepsWellFormed(t, r.0, i, newName);
    }
  }

  /** Renaming one row to a name no other row has, and deactivating it, keeps the
      constraints. */
  lemma RenameOneKeepsWellFormed(t: UserTable, u: UserTable, i: nat, newName: string)
    requires WellFormed(t) && u.nextId == t.nextId && |u.rows| == |t.rows| && i < |t.rows|
    requires u.rows[i] == t.rows[i].(username := newName, isActive := false) && |newName| <= MaxUsername
    requires forall a :: 0 <= a < |u.rows| && a != i ==> u.rows[a] == t.rows[a]
    requires forall a :: 0 <= a < |u.rows| && a != i ==> u.rows[a].username != newName
    ensures WellFormed(u)
  {
    var rows := u.rows;
    forall a, b | 0 <= a < b < |rows| ensures rows[a].username != rows[b].username && rows[a].id < rows[b].id {
      if a != i && b != i {
        assert t.rows[a].username != t.rows[b].username;
      }
    }
  }

  /** Removing rows keeps the constraints. */
  lemma {:induction false} FilterKeepsWellFormed(t: UserTable, p: User -> bool)
    requires WellFormed(t)
    ensures WellFormed(UserTable(Filter(t.rows, p), t.nextId))
    decreases |t.rows|
  {
    if t.rows != [] {
      var front := t.rows[..|t.rows| - 1];
      var last := t.rows[|t.rows| - 1];
      assert Filter(t.rows, p) == Filter(front, p) + if p(last) then [last] else [];
      PrefixWellFormed(t, |t.rows| - 1);
      FilterKeepsWellFormed(UserTable(front, t.nextId), p);
      if p(last) {
        LastIsNewest(t);
        SnocWellFormed(Filter(front, p), last, t.nextId);
      } else {
        assert Filter(front, p) + [] == Filter(front, p);
      }
    }
  }

  /** The last row of a well-formed table has a larger id and another name than every
      row before it. */
  lemma LastIsNewest(t: UserTable)
    requires WellFormed(t) && t.rows != []
    ensures var last := t.rows[|t.rows| - 1];
      forall u :: u in t.rows[..|t.rows| - 1] ==> u.id < last.id && u.username != last.username
  {
    forall u | u in t.rows[..|t.rows| - 1] ensures u.id < t.rows[|t.rows| - 1].id {
      var j :| 0 <= j < |t.rows| - 1 && t.rows[j] == u;
    }
  }

  /** The first `n` rows of a well-formed table form one. */
  lemma PrefixWellFormed(t: UserTable, n: nat)
    requires WellFormed(t) && n <= |t.rows|
    ensures WellFormed(UserTable(t.rows[..n], t.nextId))
  {
  }

  /** A row with a new name, a larger id and valid columns can follow a well-formed table. */
  lemma SnocWellFormed(rows: seq<User>, x: User, nextId: nat)
    requires WellFormed(UserTable(rows, nextId))
    requires forall u :: u in rows ==> u.id < x.id && u.username != x.username
    requires x.id < nextId && IsRole(x.role) && |x.username| <= MaxUsername
    ensures WellFormed(UserTable(rows + [x], nextId))
  {
    var r := rows + [x];
    forall i, j | 0 <= i < j < |r| ensures r[i].username != r[j].username && r[i].id < r[j].id {
      if j == |rows| {
        assert r[i] in rows;
      }
    }
  }

  // ---------------------------------------------------------------- SELECT

  datatype UserInfo = UserInfo(
    id: nat, username: string, role: string, createdAt: int, lastLogin: Option<int>, isActive: bool)

  /** The columns `get_user_info` and `list_users` select: everything but the hash. */
  function InfoOf(u: User): UserInfo
  {
    UserInfo(u.id, u.username, u.role, u.createdAt, u.lastLogin, u.isActive)
  }

  /** `get_user_info` */
  function UserInfoOf(rows: seq<User>, username: string): (r: Option<UserInfo>)
    ensures r.None? <==> !Exists(rows, username)
    ensures r.Some? ==>
      r.value.username == username && exists i :: 0 <= i < |rows| && rows[i].username == username && r.value == InfoOf(rows[i])
  {
    match Find(rows, username)
    case None => None
    case Some(i) => Some(InfoOf(rows[i]))
  }

  /** The WHERE clause `list_users` builds: `is_active = 1` when only active users are asked
      for, `role = %s` when the filter is 'admin' or 'user' (any other filter is ignored). */
  predicate Wanted(u: User, activeOnly: bool, roleFilter: Option<string>)
  {
    (activeOnly ==> u.isActive)
    && (roleFilter.Some? && IsRole(roleFilter.value) ==> u.role == roleFilter.value)
  }

  function WantedBy(activeOnly: bool, roleFilter: Option<string>): User -> bool
  {
    (u: User) => Wanted(u, activeOnly, roleFilter)
  }

  predicate NewerOrSame(a: UserInfo, b: UserInfo)
  {
    a.createdAt >= b.createdAt
  }

  function Infos(rows: seq<User>): (r: seq<UserInfo>)
    ensures |r| == |rows| && forall i :: 0 <= i < |rows| ==> r[i] == InfoOf(rows[i])
  {
    seq(|rows|, i requires 0 <= i < |rows| => InfoOf(rows[i]))
  }

  /** `list_users`: the wanted rows, `ORDER BY created_at DESC`. */
  function ListUsers(rows: seq<User>, activeOnly: bool, roleFilter: Option<string>): seq<UserInfo>
  {
    SortBy(Infos(Filter(rows, WantedBy(activeOnly, roleFilter))), NewerOrSame)
  }

  /** The listing holds exactly the wanted users, each as often as in the table, newest
      first. */
  lemma ListUsersContents(rows: seq<User>, activeOnly: bool, roleFilter: Option<string>)
    ensures var r := ListUsers(rows, activeOnly, roleFilter);
      var wanted := Filter(rows, WantedBy(activeOnly, roleFilter));
      multiset(r) == multiset(Infos(wanted))
      && (forall x :: x in r <==> exists u :: u in rows && Wanted(u, activeOnly, roleFilter) && x == InfoOf(u))
      && Sorted(r, NewerOrSame)
  {
    var r := ListUsers(rows, activeOnly, roleFilter);
    var wanted := Filter(rows, WantedBy(activeOnly, roleFilter));
    var infos := Infos(wanted);
    forall x ensures x in r <==> exists u :: u in rows && Wanted(u, activeOnly, roleFilter) && x == InfoOf(u) {
      assert x in r <==> x in multiset(r);
      assert x in infos <==> x in multiset(infos);
      if x in infos {
        var i :| 0 <= i < |infos| && infos[i] == x;
        assert wanted[i] in wanted;
      }
      if exists u :: u in rows && Wanted(u, activeOnly, roleFilter) && x == InfoOf(u) {
        var u :| u in rows && Wanted(u, activeOnly, roleFilter) && x == InfoOf(u);
        assert u in wanted;
        var i :| 0 <= i < |wanted| && wanted[i] == u;
        assert infos[i] == x;
      }
    }
    SortBySorted(infos, NewerOrSame);
  }

  // ---------------------------------------------------------------- statistics

  datatype Statistics = Statistics(
    total: nat, active: nat, inactive: int, admins: nat, users: nat, recentLogins: nat)

  const Active: User -> bool := (u: User) => u.isActive
  const Inactive: User -> bool := (u: User) => !u.isActive

  /** The active users with the given role. */
  function ActiveWithRole(role: string): User -> bool
  {
    (u: User) => u.isActive && u.role == role
  }

  /** `get_statistics`, with `weekAgo` the clock less seven days. */
  function GetStatistics(rows: seq<User>, weekAgo: int): Statistics
  {
    var total := |rows|;
    var active := Count(rows, Active);
    Statistics(total, active, total - active,
               Count(rows, ActiveWithRole("admin")),
               Count(rows, ActiveWithRole("user")),
               Count(rows, LoggedInSince(weekAgo)))
  }

  /** The inactive figure, computed as total less active, is the number of inactive users. */
  lemma InactiveCounted(rows: seq<User>, weekAgo: int)
    ensures GetStatistics(rows, weekAgo).inactive == Count(rows, Inactive)
  {
    CountComplement(rows, Active, Inactive);
  }

  /** In a table whose roles are all 'admin' or 'user', the per-role figures, which count
      active users only, add up to the active figure. */
  lemma {:induction false} RolesSplitActive(rows: seq<User>, weekAgo: int)
    requires ColumnsValid(rows)
    ensures var s := GetStatistics(rows, weekAgo); s.admins + s.users == s.active
  {
    if rows != [] {
      var front := rows[..|rows| - 1];
      assert ColumnsValid(front) by {
        forall i | 0 <= i < |front| ensures IsRole(front[i].role) && |front[i].username| <= MaxUsername {
          assert front[i] == rows[i];
        }
      }
      RolesSplitActive(front, weekAgo);
      assert IsRole(rows[|rows| - 1].role);
    }
  }

  /** A login at or after `weekAgo`; users who never logged in have none. */
  predicate RecentLogin(u: User, weekAgo: int)
  {
    u.lastLogin.Some? && u.lastLogin.value >= weekAgo
  }

  function LoggedInSince(weekAgo: int): User -> bool
  {
    (u: User) => RecentLogin(u, weekAgo)
  }

  /** The positions of the users who logged in at or after `weekAgo`. */
  ghost function RecentPositions(rows: seq<User>, weekAgo: int): set<nat>
  {
    set i | 0 <= i < |rows| && RecentLogin(rows[i], weekAgo)
  }

  /** The recent-login figure counts exactly the positions of users whose last login is at or
      after `weekAgo`, so it never exceeds the total. */
  lemma RecentLogins(rows: seq<User>, weekAgo: int)
    ensures var s := GetStatistics(rows, weekAgo);
      s.recentLogins == |RecentPositions(rows, weekAgo)|
      && s.recentLogins <= s.total
  {
    var p := LoggedInSince(weekAgo);
    CountIsCardinality(rows, p);
    assert GetStatistics(rows, weekAgo).recentLogins == Count(rows, p);
    assert RecentPositions(rows, weekAgo) == Positions(rows, p);
  }

  // ---------------------------------------------------------------- restore_users

  /** One parsed entry of a backup file. */
  datatype BackupEntry = BackupEntry(
    username: string, passwordHash: string, role: string, createdAt: Option<int>,
    lastLogin: Option<int>, isActive: bool)

  /** The running state of `restore_users`: the table as the open transaction sees it, and
      the `restored` and `skipped` counters. */
  datatype Restoring = Restoring(table: UserTable, restored: nat, skipped: nat)

  /** The row an entry inserts; a missing `created_at` becomes the clock. */
  function RestoredRow(e: BackupEntry, now: int): User
  {
    User(0, e.username, e.passwordHash, e.role, if e.createdAt.Some? then e.createdAt.value else now,
         e.lastLogin, e.isActive)
  }

  /** One iteration: an existing name is skipped; otherwise the entry is inserted, and an
      insert the table refuses (a role outside the ENUM, a name too wide) raises. */
  function RestoreStep(acc: Restoring, e: BackupEntry, now: int): (r: Option<Restoring>)
    ensures r.Some? ==> r.value.restored + r.value.skipped == acc.restored + acc.skipped + 1
    ensures r.Some? ==> Exists(r.value.table.rows, e.username)
  {
    if Exists(acc.table.rows, e.username) then Some(acc.(skipped := acc.skipped + 1))
    else
      var inserted := Inserted(acc.table, RestoredRow(e, now));
      if inserted.None? then None
      else
        assert inserted.value.rows[|acc.table.rows|].username == e.username;
        Some(Restoring(inserted.value, acc.restored + 1, acc.skipped))
  }

  /** The loop of `restore_users` over the first entries; None once an insert has raised. */
  function RestoreLoop(t: UserTable, entries: seq<BackupEntry>, now: int): Option<Restoring>
  {
    if entries == [] then Some(Restoring(t, 0, 0))
    else
      match RestoreLoop(t, entries[..|entries| - 1], now)
      case None => None
      case Some(acc) => RestoreStep(acc, entries[|entries| - 1], now)
  }

  /** The loop over one more entry is one more iteration. */
  lemma RestoreLoopTake(t: UserTable, entries: seq<BackupEntry>, i: nat, now: int)
    requires i < |entries|
    ensures RestoreLoop(t, entries[..i + 1], now)
         == if RestoreLoop(t, entries[..i], now).None? then None
            else RestoreStep(RestoreLoop(t, entries[..i], now).value, entries[i], now)
  {
    assert entries[..i + 1][..i] == entries[..i];
  }

  /** Once an insert has raised, the restore stays abandoned. */
  lemma {:induction false} RestoreAbandoned(t: UserTable, entries: seq<BackupEntry>, i: nat, now: int)
    requires i <= |entries| && RestoreLoop(t, entries[..i], now).None?
    ensures RestoreLoop(t, entries, now).None?
    decreases |entries| - i
  {
    if i == |entries| {
      assert entries[..i] == entries;
    } else {
      RestoreLoopTake(t, entries, i, now);
      RestoreAbandoned(t, entries, i + 1, now);
    }
  }

  /** `restore_users` over already-parsed entries: True with the committed table, or False
      with nothing committed. */
  function RestoreUsers(t: UserTable, entries: seq<BackupEntry>, now: int): (r: (UserTable, bool))
  {
    match RestoreLoop(t, entries, now)
    case None => (t, false)
    case Some(acc) => (acc.table, true)
  }

  /** A finished restore has counted every entry once, as restored or skipped; it has added
      one row per restored entry after the existing ones, which it keeps; and the table's
      constraints still hold. */
  lemma {:induction false} RestoreCounts(t: UserTable, entries: seq<BackupEntry>, now: int)
    requires WellFormed(t) && RestoreLoop(t, entries, now).Some?
    ensures var acc := RestoreLoop(t, entries, now).value;
      acc.restored + acc.skipped == |entries|
      && |acc.table.rows| == |t.rows| + acc.restored && acc.table.rows[..|t.rows|] == t.rows
      && WellFormed(acc.table)
  {
    if entries != [] {
      var front := entries[..|entries| - 1];
      RestoreCounts(t, front, now);
      var before := RestoreLoop(t, front, now).value;
      var acc := RestoreStep(before, entries[|entries| - 1], now).value;
      RestoreStepKeeps(before, entries[|entries| - 1], now);
      PrefixOfPrefix(t.rows, before.table.rows, acc.table.rows);
    }
  }

  /** After a finished restore every entry's username is in the table. */
  lemma {:induction false} RestoredNamesExist(t: UserTable, entries: seq<BackupEntry>, now: int)
    requires WellFormed(t) && RestoreLoop(t, entries, now).Some?
    ensures forall e :: e in entries ==> Exists(RestoreLoop(t, entries, now).value.table.rows, e.username)
  {
    if entries != [] {
      var front := entries[..|entries| - 1];
      var e := entries[|entries| - 1];
      RestoredNamesExist(t, front, now);
      RestoreCounts(t, front, now);
      var before := RestoreLoop(t, front, now).value;
      var acc := RestoreStep(before, e, now).value;
      RestoreStepKeeps(before, e, now);
      forall x | x in entries ensures Exists(acc.table.rows, x.username) {
        if x != e {
          assert x in front;
          ExistsKept(before.table.rows, acc.table.rows, x.username);
        }
      }
    }
  }

  lemma PrefixOfPrefix<T>(a: seq<T>, b: seq<T>, c: seq<T>)
    requires |a| <= |b| <= |c| && b[..|a|] == a && c[..|b|] == b
    ensures c[..|a|] == a
  {
    assert c[..|a|] == c[..|b|][..|a|];
  }

  /** A name present in a table is present in any table that extends it. */
  lemma ExistsKept(rows: seq<User>, longer: seq<User>, username: string)
    requires |rows| <= |longer| && longer[..|rows|] == rows && Exists(rows, username)
    ensures Exists(longer, username)
  {
    var i := Find(rows, username).value;
    assert longer[i] == rows[i];
  }

  /** One iteration keeps the earlier rows and the constraints. */
  lemma RestoreStepKeeps(acc: Restoring, e: BackupEntry, now: int)
    requires WellFormed(acc.table) && RestoreStep(acc, e, now).Some?
    ensures var next := RestoreStep(acc, e, now).value;
      |next.table.rows| >= |acc.table.rows| && next.table.rows[..|acc.table.rows|] == acc.table.rows
      && WellFormed(next.table) && |next.table.rows| - |acc.table.rows| == next.restored - acc.restored
  {
  }

  /** An entry's name is in neither the table nor an earlier entry of the backup. */
  predicate NameUnseen(t: UserTable, earlier: seq<BackupEntry>, username: string)
  {
    !Exists(t.rows, username) && forall j :: 0 <= j < |earlier| ==> earlier[j].username != username
  }

  /** The entries a restore inserts, in backup order: the first entry under each name the
      table does not hold yet. */
  function NewEntries(t: UserTable, entries: seq<BackupEntry>): (r: seq<BackupEntry>)
    ensures |r| <= |entries|
    ensures forall x :: x in r ==> x in entries
  {
    if entries == [] then []
    else
      var front := entries[..|entries| - 1];
      var e := entries[|entries| - 1];
      NewEntries(t, front) + (if NameUnseen(t, front, e.username) then [e] else [])
  }

  /** An entry the users table accepts: its role is in the ENUM and its name fits the column. */
  predicate Insertable(e: BackupEntry)
  {
    IsRole(e.role) && |e.username| <= MaxUsername
  }

  /** The rows inserted for `added`, numbered on from `firstId`. */
  function RestoredRows(added: seq<BackupEntry>, firstId: nat, now: int): (r: seq<User>)
    ensures |r| == |added|
    ensures forall k :: 0 <= k < |r| ==> r[k] == RestoredRow(added[k], now).(id := firstId + k)
  {
    seq(|added|, k requires 0 <= k < |added| => RestoredRow(added[k], now).(id := firstId + k))
  }

  lemma RestoredRowsAppend(added: seq<BackupEntry>, e: BackupEntry, firstId: nat, now: int)
    ensures RestoredRows(added + [e], firstId, now)
         == RestoredRows(added, firstId, now) + [RestoredRow(e, now).(id := firstId + |added|)]
  {
    var a := RestoredRows(added + [e], firstId, now);
    var b := RestoredRows(added, firstId, now) + [RestoredRow(e, now).(id := firstId + |added|)];
    assert forall k :: 0 <= k < |a| ==> a[k] == b[k];
  }

  /** Part way through a restore, a name is in the table exactly when it was there at the
      start or an earlier entry carries it. */
  lemma SeenBefore(t: UserTable, earlier: seq<BackupEntry>, rows: seq<User>, now: int, username: string)
    requires rows == t.rows + RestoredRows(NewEntries(t, earlier), t.nextId, now)
    requires forall x :: x in earlier ==> Exists(rows, x.username)
    ensures Exists(rows, username) <==> !NameUnseen(t, earlier, username)
  {
    if Exists(rows, username) {
      SeenIfPresent(t, earlier, rows, now, username);
    }
    if !NameUnseen(t, earlier, username) {
      PresentIfSeen(t, earlier, rows, username);
    }
  }

  /** A row of the table part way through a restore was there at the start or came from an
      earlier entry. */
  lemma SeenIfPresent(t: UserTable, earlier: seq<BackupEntry>, rows: seq<User>, now: int, username: string)
    requires rows == t.rows + RestoredRows(NewEntries(t, earlier), t.nextId, now)
    requires Exists(rows, username)
    ensures !NameUnseen(t, earlier, username)
  {
    var i := Find(rows, username).value;
    if i < |t.rows| {
      assert t.rows[i].username == username;
      assert Exists(t.rows, username);
    } else {
      var x := NewEntries(t, earlier)[i - |t.rows|];
      assert x.username == username;
      assert x in NewEntries(t, earlier);
      var j :| 0 <= j < |earlier| && earlier[j] == x;
      assert earlier[j].username == username;
    }
  }

  /** A name of the starting table or of an earlier entry is in the table part way through
      a restore. */
  lemma PresentIfSeen(t: UserTable, earlier: seq<BackupEntry>, rows: seq<User>, username: string)
    requires |t.rows| <= |rows| && rows[..|t.rows|] == t.rows
    requires forall x :: x in earlier ==> Exists(rows, x.username)
    requires !NameUnseen(t, earlier, username)
    ensures Exists(rows, username)
  {
    if Exists(t.rows, username) {
      ExistsKept(t.rows, rows, username);
    } else {
      var j :| 0 <= j < |earlier| && earlier[j].username == username;
      assert earlier[j] in earlier;
    }
  }

  /** One iteration on a table that holds the rows restored so far: it raises exactly when
      the entry is new and refused, and otherwise appends the entry's row when it is new. */
  lemma RestoreStepAppends(acc: Restoring, e: BackupEntry, now: int, t: UserTable, added: seq<BackupEntry>,
                           unseen: bool)
    requires acc.table == UserTable(t.rows + RestoredRows(added, t.nextId, now), t.nextId + |added|)
    requires Exists(acc.table.rows, e.username) <==> !unseen
    ensures var next := RestoreStep(acc, e, now);
      var more := added + (if unseen then [e] else []);
      (next.None? <==> unseen && !Insertable(e))
      && (next.Some? ==>
            next.value.table == UserTable(t.rows + RestoredRows(more, t.nextId, now), t.nextId + |more|)
            && next.value.restored == acc.restored + |more| - |added|
            && next.value.skipped == acc.skipped + 1 - (|more| - |added|))
  {
    if unseen {
      RestoredRowsAppend(added, e, t.nextId, now);
      var row := RestoredRow(e, now).(id := t.nextId + |added|);
      assert t.rows + RestoredRows(added, t.nextId, now) + [row] == t.rows + (RestoredRows(added, t.nextId, now) + [row]);
    }
  }

  /** A finished restore appends, after the rows it found, exactly one row per new entry, in
      backup order, each built from its entry and numbered with the next fresh ids; the other
      entries are the skipped ones. */
  lemma {:induction false} RestoreAppends(t: UserTable, entries: seq<BackupEntry>, now: int)
    requires WellFormed(t) && RestoreLoop(t, entries, now).Some?
    ensures var acc := RestoreLoop(t, entries, now).value;
      var added := NewEntries(t, entries);
      acc.table == UserTable(t.rows + RestoredRows(added, t.nextId, now), t.nextId + |added|)
      && acc.restored == |added| && acc.skipped == |entries| - |added|
  {
    if entries == [] {
      assert t.rows + RestoredRows([], t.nextId, now) == t.rows;
    } else {
      var front := entries[..|entries| - 1];
      var e := entries[|entries| - 1];
      RestoreAppends(t, front, now);
      RestoredNamesExist(t, front, now);
      var before := RestoreLoop(t, front, now).value;
      SeenBefore(t, front, before.table.rows, now, e.username);
      RestoreStepAppends(before, e, now, t, NewEntries(t, front), NameUnseen(t, front, e.username));
    }
  }

  /** Some entry of `entries` is one the table refuses. */
  predicate SomeRefused(entries: seq<BackupEntry>)
  {
    exists k :: 0 <= k < |entries| && !Insertable(entries[k])
  }

  lemma RefusedAppend(entries: seq<BackupEntry>, more: seq<BackupEntry>)
    ensures SomeRefused(entries + more) <==> SomeRefused(entries) || SomeRefused(more)
  {
    var all := entries + more;
    if SomeRefused(entries) {
      var k :| 0 <= k < |entries| && !Insertable(entries[k]);
      assert all[k] == entries[k];
    }
    if SomeRefused(more) {
      var k :| 0 <= k < |more| && !Insertable(more[k]);
      assert all[|entries| + k] == more[k];
    }
    if SomeRefused(all) {
      var k :| 0 <= k < |all| && !Insertable(all[k]);
      if k < |entries| {
        assert all[k] == entries[k];
      } else {
        assert all[k] == more[k - |entries|];
      }
    }
  }

  /** A restore raises, and so commits nothing, exactly when one of its new entries is one
      the table refuses: a role outside the ENUM or a name over 50 characters. */
  lemma {:induction false} RestoreFails(t: UserTable, entries: seq<BackupEntry>, now: int)
    requires WellFormed(t)
    ensures RestoreLoop(t, entries, now).None? <==> SomeRefused(NewEntries(t, entries))
  {
    if entries != [] {
      var front := entries[..|entries| - 1];
      var e := entries[|entries| - 1];
      var added := NewEntries(t, front);
      var unseen := NameUnseen(t, front, e.username);
      var more := if unseen then [e] else [];
      assert NewEntries(t, entries) == added + more;
      RefusedAppend(added, more);
      assert SomeRefused(more) <==> unseen && !Insertable(e) by {
        if unseen {
          assert more[0] == e;
        }
      }
      RestoreFails(t, front, now);
      if RestoreLoop(t, front, now).None? {
        RestoreAbandoned(t, entries, |entries| - 1, now);
      } else {
        NextEntryRefused(t, front, e, now);
      }
    }
  }

  /** After a finished restore of the earlier entries, the next one raises exactly when it
      is new and refused. */
  lemma NextEntryRefused(t: UserTable, earlier: seq<BackupEntry>, e: BackupEntry, now: int)
    requires WellFormed(t) && RestoreLoop(t, earlier, now).Some?
    ensures RestoreStep(RestoreLoop(t, earlier, now).value, e, now).None?
        <==> NameUnseen(t, earlier, e.username) && !Insertable(e)
  {
    RestoreAppends(t, earlier, now);
    RestoredNamesExist(t, earlier, now);
    var before := RestoreLoop(t, earlier, now).value;
    SeenBefore(t, earlier, before.table.rows, now, e.username);
    RestoreStepAppends(before, e, now, t, NewEntries(t, earlier), NameUnseen(t, earlier, e.username));
  }

  /** `restore_users` over parsed entries: False with the table untouched when a new entry
      is refused, otherwise True with one row appended per new entry. */
  lemma RestoreUsersOutcome(t: UserTable, entries: seq<BackupEntry>, now: int)
    requires WellFormed(t)
    ensures var added := NewEntries(t, entries);
      RestoreUsers(t, entries, now)
      == if SomeRefused(added) then (t, false)
         else (UserTable(t.rows + RestoredRows(added, t.nextId, now), t.nextId + |added|), true)
  {
    RestoreFails(t, entries, now);
    if RestoreLoop(t, entries, now).Some? {
      RestoreAppends(t, entries, now);
    }
  }
}
