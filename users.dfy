/** user_manager.py's `UserManager`: the users table it reaches through its connection, held
    here as fields it updates in place. Each method leaves the table, and answers, exactly as
    the matching `Accounts` function computes from the table before the call. */
module Users {
  import opened Wrappers
  import opened Seqs
  import opened Accounts

  /** One condition of the WHERE clause `list_users` assembles. */
  datatype Condition = ActiveOnly | RoleIs(role: string)

  predicate Holds(u: User, c: Condition)
  {
    match c
    case ActiveOnly => u.isActive
    case RoleIs(role) => u.role == role
  }

  /** `" AND ".join(conditions)`: every condition holds (no condition: every row). */
  predicate HoldsAll(u: User, conditions: seq<Condition>)
  {
    forall i :: 0 <= i < |conditions| ==> Holds(u, conditions[i])
  }

  /** The conditions `list_users` assembles select exactly the wanted users. */
  lemma ConditionsSelectWanted(activeOnly: bool, roleFilter: Option<string>, conditions: seq<Condition>)
    requires conditions == (if activeOnly then [ActiveOnly] else [])
      + if roleFilter.Some? && IsRole(roleFilter.value) then [RoleIs(roleFilter.value)] else []
    ensures forall u :: HoldsAll(u, conditions) <==> WantedBy(activeOnly, roleFilter)(u)
  {
    forall u ensures HoldsAll(u, conditions) <==> Wanted(u, activeOnly, roleFilter) {
      if activeOnly && !u.isActive {
        assert !Holds(u, conditions[0]);
      }
      if roleFilter.Some? && IsRole(roleFilter.value) && u.role != roleFilter.value {
        assert !Holds(u, conditions[|conditions| - 1]);
      }
    }
  }

  class UserManager {
    var users: seq<User>
    var nextId: nat
    /** `hash_password`: SHA-256 as a hex string; a parameter of the model. */
    const hash: string -> string

    function Table(): UserTable
      reads this
    {
      UserTable(users, nextId)
    }

    /** The constraints of the users table hold. */
    ghost predicate Valid()
      reads this
    {
      WellFormed(Table())
    }

    /** A manager connected to a database whose users table is `table`. */
    constructor (table: UserTable, hash: string -> string)
      ensures Table() == table && this.hash == hash
    {
      users, nextId := table.rows, table.nextId;
      this.hash := hash;
    }

    /** `user_exists` */
    method UserExists(username: string) returns (b: bool)
      ensures b <==> exists i :: 0 <= i < |users| && users[i].username == username
    {
      b := Find(users, username).Some?;
    }

    /** INSERT INTO users; a row the constraints refuse raises and changes nothing. */
    method Insert(row: User) returns (ok: bool)
      modifies this
      ensures var r := Inserted(old(Table()), row);
        ok == r.Some? && Table() == if ok then r.value else old(Table())
    {
      var inserted := Inserted(Table(), row);
      ok := inserted.Some?;
      if ok {
        users := users + [row.(id := nextId)];
        nextId := nextId + 1;
      }
    }

    /** UPDATE users SET ... WHERE username = %s */
    method UpdateRows(username: string, change: User -> User)
      modifies this
      ensures users == UpdateWhere(old(users), username, change) && nextId == old(nextId)
    {
      var i := 0;
      var updated: seq<User> := [];
      while i < |users|
        invariant 0 <= i <= |users| && |updated| == i
        invariant forall k :: 0 <= k < i ==>
          updated[k] == if users[k].username == username then change(users[k]) else users[k]
      {
        var row := users[i];
        if row.username == username {
          row := change(row);
        }
        updated := updated + [row];
        i := i + 1;
      }
      users := updated;
    }

    /** DELETE FROM users WHERE username = %s */
    method DeleteRows(username: string)
      modifies this
      ensures users == Filter(old(users), Except(username)) && nextId == old(nextId)
    {
      var rows := users;
      var i := 0;
      var kept: seq<User> := [];
      while i < |rows|
        invariant 0 <= i <= |rows|
        invariant kept == Filter(rows[..i], Except(username))
        invariant unchanged(this)
      {
        FilterTake(rows, i, Except(username));
        if rows[i].username != username {
          kept := kept + [rows[i]];
        }
        i := i + 1;
      }
      TakeAll(rows);
      users := kept;
    }

    /** `add_user`, with the clock passed in as `now`. */
    method AddUser(username: string, password: string, role: string, isActive: bool, now: int) returns (ok: bool)
      modifies this
      ensures (Table(), ok) == Accounts.AddUser(old(Table()), username, hash(password), role, isActive, now)
      ensures old(Valid()) ==> Valid()
    {
      var known := UserExists(username);
      if known {
        return false;
      }
      if !IsRole(role) {
        return false;
      }
      var passwordHash := hash(password);
      ok := Insert(User(0, username, passwordHash, role, now, None, isActive));
      AddUserEffect(old(Table()), username, passwordHash, role, isActive, now);
    }

    /** `update_password` */
    method UpdatePassword(username: string, password: string) returns (ok: bool)
      modifies this
      ensures (Table(), ok) == Accounts.UpdatePassword(old(Table()), username, hash(password))
      ensures old(Valid()) ==> Valid()
    {
      var known := UserExists(username);
      if !known {
        return false;
      }
      var passwordHash := hash(password);
      UpdateRows(username, NewHash(passwordHash));
      ok := true;
      if old(Valid()) {
        ChangesKeepWellFormed(old(Table()), username, passwordHash, "user", true, true, "");
      }
    }

    /** `update_role` */
    method UpdateRole(username: string, role: string) returns (ok: bool)
      modifies this
      ensures (Table(), ok) == Accounts.UpdateRole(old(Table()), username, role)
      ensures old(Valid()) ==> Valid()
    {
      var known := UserExists(username);
      if !known {
        return false;
      }
      if !IsRole(role) {
        return false;
      }
      UpdateRows(username, NewRole(role));
      ok := true;
      if old(Valid()) {
        ChangesKeepWellFormed(old(Table()), username, "", role, true, true, "");
      }
    }

    /** `toggle_user_status` */
    method ToggleUserStatus(username: string, activate: bool) returns (ok: bool)
      modifies this
      ensures (Table(), ok) == SetActive(old(Table()), username, activate)
      ensures old(Valid()) ==> Valid()
    {
      var known := UserExists(username);
      if !known {
        return false;
      }
      UpdateRows(username, NewStatus(activate));
      ok := true;
      if old(Valid()) {
        ChangesKeepWellFormed(old(Table()), username, "", "user", activate, true, "");
      }
    }

    /** `delete_user`, with the `%Y%m%d_%H%M%S` timestamp passed in as `stamp`. */
    method DeleteUser(username: string, soft: bool, stamp: string) returns (ok: bool)
      modifies this
      ensures (Table(), ok) == Accounts.DeleteUser(old(Table()), username, soft, stamp)
      ensures old(Valid()) ==> Valid()
    {
      var known := UserExists(username);
      if !known {
        return false;
      }
      if soft {
        var newName := DeletedName(username, stamp);
        var taken := UserExists(newName);
        if taken || |newName| > MaxUsername {
          return false;
        }
        UpdateRows(username, Renamed(newName));
      } else {
        DeleteRows(username);
      }
      ok := true;
      if old(Valid()) {
        ChangesKeepWellFormed(old(Table()), username, "", "user", true, soft, stamp);
      }
    }

    /** `get_user_info` */
    method GetUserInfo(username: string) returns (info: Option<UserInfo>)
      ensures info == UserInfoOf(users, username)
    {
      var i := Find(users, username);
      if i.None? {
        return None;
      }
      info := Some(InfoOf(users[i.value]));
    }

    /** SELECT ... FROM users WHERE <conditions>: the rows, in table order, that every
        condition holds of. */
    method SelectWhere(conditions: seq<Condition>, wanted: User -> bool) returns (selected: seq<User>)
      requires forall u :: HoldsAll(u, conditions) <==> wanted(u)
      ensures selected == Filter(users, wanted)
    {
      var table := users;
      var i := 0;
      selected := [];
      while i < |table|
        invariant 0 <= i <= |table|
        invariant selected == Filter(table[..i], wanted)
      {
        FilterTake(table, i, wanted);
        if HoldsAll(table[i], conditions) {
          selected := selected + [table[i]];
        }
        i := i + 1;
      }
      TakeAll(table);
    }

    /** `list_users`: assemble the WHERE clause, select the matching rows, newest first. */
    method ListUsers(activeOnly: bool, roleFilter: Option<string>) returns (rows: seq<UserInfo>)
      ensures rows == Accounts.ListUsers(users, activeOnly, roleFilter)
      ensures Sorted(rows, NewerOrSame)
      ensures forall x :: x in rows <==> exists u :: u in users && Wanted(u, activeOnly, roleFilter) && x == InfoOf(u)
    {
      var conditions: seq<Condition> := [];
      if activeOnly {
        conditions := conditions + [ActiveOnly];
      }
      if roleFilter.Some? && IsRole(roleFilter.value) {
        conditions := conditions + [RoleIs(roleFilter.value)];
      }
      ConditionsSelectWanted(activeOnly, roleFilter, conditions);
      var selected := SelectWhere(conditions, WantedBy(activeOnly, roleFilter));
      rows := SortBy(Infos(selected), NewerOrSame);
      ListUsersContents(users, activeOnly, roleFilter);
    }

    /** `get_statistics`, with the clock passed in as `now`. */
    method GetStatistics(now: int) returns (stats: Statistics)
      ensures stats == Accounts.GetStatistics(users, now - WeekSeconds)
      ensures stats.inactive == Count(users, Inactive)
      ensures Valid() ==> stats.admins + stats.users == stats.active
    {
      var total := |users|;
      var active := Count(users, Active);
      var weekAgo := now - WeekSeconds;
      stats := Statistics(total, active, total - active,
                          Count(users, ActiveWithRole("admin")),
                          Count(users, ActiveWithRole("user")),
                          Count(users, LoggedInSince(weekAgo)));
      InactiveCounted(users, weekAgo);
      if WellFormed(Table()) {
        RolesSplitActive(users, weekAgo);
      }
    }

    /** `restore_users` over the parsed backup entries, with the clock passed in as `now`:
        every entry is skipped or inserted within one transaction, committed at the end; an
        insert that raises abandons the restore and nothing is committed. */
    method RestoreUsers(entries: seq<BackupEntry>, now: int) returns (ok: bool, restored: nat, skipped: nat)
      modifies this
      ensures var r := RestoreLoop(old(Table()), entries, now);
        ok == r.Some? && (ok ==> Table() == r.value.table && restored == r.value.restored && skipped == r.value.skipped)
        && (!ok ==> Table() == old(Table()))
      ensures ok ==> (old(Valid()) ==> restored + skipped == |entries| && Valid())
    {
      var start := Table();
      var acc := Restoring(start, 0, 0);
      var i := 0;
      while i < |entries|
        invariant 0 <= i <= |entries| && Table() == start
        invariant RestoreLoop(start, entries[..i], now) == Some(acc)
      {
        RestoreLoopTake(start, entries, i, now);
        var e := entries[i];
        if Exists(acc.table.rows, e.username) {
          acc := acc.(skipped := acc.skipped + 1);
        } else {
          var inserted := Inserted(acc.table, RestoredRow(e, now));
          if inserted.None? {
            RestoreAbandoned(start, entries, i + 1, now);
            return false, 0, 0;
          }
          acc := Restoring(inserted.value, acc.restored + 1, acc.skipped);
        }
        i := i + 1;
      }
      TakeAll(entries);
      users, nextId := acc.table.rows, acc.table.nextId;
      ok, restored, skipped := true, acc.restored, acc.skipped;
      if WellFormed(start) {
        RestoreCounts(start, entries, now);
      }
    }
  }
}
