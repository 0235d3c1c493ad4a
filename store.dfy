/**
 * The subscription store: the SQLite file `subscriptions.db` with its two
 * tables, `users` (user_id, email, password, approved, subscribed) and
 * `admin` (password).
 *
 * The pure functions below give the meaning of each SQL statement on table
 * values; the class `SubscriptionDb` holds the tables and performs the
 * statements in place, each method tied to its function.
 *
 * Rows of `users` are read back in ascending `user_id`: `user_id` is an
 * INTEGER PRIMARY KEY, hence the table's rowid, and a scan of the table
 * without ORDER BY visits rowids in ascending order.
 */
module Store {
  import opened Optional
  import PyText

  /** Attempts `add_user` makes before giving up on a locked database. */
  const MaxAttempts: nat := 5

  /** The text of the SQLite error that `add_user` retries. */
  const LockedMessage: string := "database is locked"

  /** One row of `users`; `approved` and `subscribed` are the 0/1 columns. */
  datatype UserRow = UserRow(email: string, password: string, approved: bool, subscribed: bool)

  /** One row of `SELECT user_id, email FROM users WHERE approved = 0`. */
  datatype PendingUser = PendingUser(userId: int, email: string)

  /** The whole database: whether the two tables exist, and their rows. */
  datatype Db = Db(hasTables: bool, users: map<int, UserRow>, admin: seq<string>)

  /** What one connection attempt of `add_user` runs into. */
  datatype Condition =
    | Free                      // the INSERT runs
    | Failed(message: string)   // sqlite3.OperationalError with this message

  /** The exceptions the store lets escape. */
  datatype DbError =
    | IntegrityError              // duplicate user_id (primary key)
    | OperationalError(message: string)

  /** How a call of `add_user` ends: it returns, or it raises. */
  datatype AddOutcome = Returned | Raised(error: DbError)

  /** Outcome, resulting rows and number of attempts made by `add_user`. */
  datatype AddRun = AddRun(outcome: AddOutcome, users: map<int, UserRow>, attempts: nat)

  /** A database file in which nothing has been created yet. */
  const Fresh: Db := Db(false, map[], [])

  /** Without the tables there are no rows. */
  predicate WellFormed(d: Db) {
    !d.hasTables ==> d.users == map[] && d.admin == []
  }

  // ---------------------------------------------------------------------
  // db_setup

  /** `db_setup`: create both tables if absent, then seed one admin row with
      the empty password only when the admin table has no row. */
  function Setup(d: Db): (r: Db)
    requires WellFormed(d)
    ensures WellFormed(r) && r.hasTables
    ensures r.users == d.users
    ensures d.admin != [] ==> r.admin == d.admin
    ensures d.admin == [] ==> r.admin == [""]
  {
    Db(true, d.users, if d.admin == [] then [""] else d.admin)
  }

  /** Running the set-up again changes nothing; this follows directly from
      the definition of Setup. */
  lemma SetupIdempotent(d: Db)
    requires WellFormed(d)
    ensures Setup(Setup(d)) == Setup(d)
  {
  }

  /** Set-up on a fresh file leaves one admin row, no users and the empty
      string as the only accepted admin password; this follows directly from
      the definitions. */
  lemma FreshSetup(candidate: string)
    ensures Setup(Fresh).admin == [""] && Setup(Fresh).users == map[]
    ensures AdminPasswordMatches(Setup(Fresh).admin, candidate) <==> candidate == ""
  {
  }

  // ---------------------------------------------------------------------
  // queries

  /** `check_admin_password`: some admin row holds exactly this password. */
  predicate AdminPasswordMatches(admin: seq<string>, candidate: string)
    ensures admin == [] ==> !AdminPasswordMatches(admin, candidate)
    ensures admin == [""] ==> (AdminPasswordMatches(admin, candidate) <==> candidate == "")
  {
    candidate in admin
  }

  /** `is_approved`: a row for the id exists and its approved flag is set. */
  predicate IsApproved(users: map<int, UserRow>, userId: int)
    ensures IsApproved(users, userId) ==> userId in users
  {
    userId in users && users[userId].approved
  }

  /** m is the smallest element of s. */
  predicate IsLeast(m: int, s: set<int>) {
    m in s && forall x :: x in s ==> m <= x
  }

  lemma {:induction false} HasLeast(s: set<int>)
    requires s != {}
    ensures exists m :: IsLeast(m, s)
    decreases |s|
  {
    if forall y :: y !in s { assert false; }
    var y :| y in s;
    var rest := s - {y};
    if rest == {} {
      assert s == {y};
      assert IsLeast(y, s);
    } else {
      HasLeast(rest);
      var m :| IsLeast(m, rest);
      var least := if y < m then y else m;
      forall x | x in s ensures least <= x {
        assert x == y || x in rest;
      }
      assert IsLeast(least, s);
    }
  }

  /** The smallest element of a non-empty set of ids. */
  function Least(s: set<int>): (m: int)
    requires s != {}
    ensures m in s && forall x :: x in s ==> m <= x
  {
    HasLeast(s);
    var m :| IsLeast(m, s); m
  }

  /** The ids of s in ascending order: the order a table scan visits rowids. */
  function AscendingIds(s: set<int>): (ids: seq<int>)
    decreases |s|
    ensures forall x :: x in s <==> x in ids
    ensures forall i, j :: 0 <= i < j < |ids| ==> ids[i] < ids[j]
  {
    if s == {} then []
    else
      var m := Least(s);
      [m] + AscendingIds(s - {m})
  }

  predicate IsPendingRow(users: map<int, UserRow>, p: PendingUser) {
    p.userId in users && !users[p.userId].approved && p.email == users[p.userId].email
  }

  /** The pending rows among the given ids, in the order of the ids. */
  function PendingAmong(users: map<int, UserRow>, ids: seq<int>): (rows: seq<PendingUser>)
    requires forall i :: 0 <= i < |ids| ==> ids[i] in users
    ensures forall p :: p in rows <==> p.userId in ids && IsPendingRow(users, p)
    ensures (forall i, j :: 0 <= i < j < |ids| ==> ids[i] < ids[j]) ==>
              forall i, j :: 0 <= i < j < |rows| ==> rows[i].userId < rows[j].userId
  {
    if ids == [] then []
    else
      var rest := PendingAmong(users, ids[1..]);
      if users[ids[0]].approved then rest
      else [PendingUser(ids[0], users[ids[0]].email)] + rest
  }

  /** `get_pending_users`: the (user_id, email) of exactly the rows with
      approved = 0, each once, in ascending user_id. */
  function PendingUsers(users: map<int, UserRow>): (rows: seq<PendingUser>)
    ensures forall p :: p in rows <==> IsPendingRow(users, p)
    ensures forall i, j :: 0 <= i < j < |rows| ==> rows[i].userId < rows[j].userId
  {
    PendingAmong(users, AscendingIds(users.Keys))
  }

  /** Nobody is pending exactly when every row is approved. */
  lemma NoPendingIffAllApproved(users: map<int, UserRow>)
    ensures PendingUsers(users) == [] <==> forall id :: id in users ==> users[id].approved
  {
    var rows := PendingUsers(users);
    if rows == [] {
      forall id | id in users ensures users[id].approved {
        var p := PendingUser(id, users[id].email);
        assert p in rows <==> IsPendingRow(users, p);
      }
    } else {
      assert IsPendingRow(users, rows[0]);
    }
  }

  /** A table with a single row lists that row as pending exactly when it is not approved. */
  lemma PendingOfSingleRow(userId: int, row: UserRow)
    ensures PendingUsers(map[userId := row]) == if row.approved then [] else [PendingUser(userId, row.email)]
  {
    var users := map[userId := row];
    assert users.Keys == {userId};
    assert Least({userId}) == userId;
    assert {userId} - {userId} == {};
    assert AscendingIds(users.Keys) == [userId];
    assert [userId][1..] == [];
    assert PendingAmong(users, []) == [];
    assert PendingAmong(users, [userId]) == if row.approved then [] else [PendingUser(userId, row.email)];
  }

  predicate HasCredentials(users: map<int, UserRow>, userId: int, email: string, password: string) {
    userId in users && users[userId].email == email && users[userId].password == password
  }

  /**
   * `SELECT approved FROM users WHERE email = ? AND password = ?` followed by
   * `fetchone()`: None when no row matches both, otherwise the approved flag
   * of the matching row with the smallest user_id.
   */
  function LoginMatch(users: map<int, UserRow>, email: string, password: string): (r: Option<bool>)
    ensures r == None <==> forall id :: !HasCredentials(users, id, email, password)
    ensures r.Some? ==> exists id :: (HasCredentials(users, id, email, password) && users[id].approved == r.value
              && forall other :: HasCredentials(users, other, email, password) ==> id <= other)
  {
    var matching := set id | id in users && HasCredentials(users, id, email, password);
    assert forall id :: HasCredentials(users, id, email, password) ==> id in matching;
    if matching == {} then None
    else
      var first := Least(matching);
      assert HasCredentials(users, first, email, password);
      Some(users[first].approved)
  }

  // ---------------------------------------------------------------------
  // approve_user

  /** `UPDATE users SET approved = 1 WHERE user_id = ?` */
  function Approve(users: map<int, UserRow>, userId: int): (r: map<int, UserRow>)
    ensures r.Keys == users.Keys
    ensures userId in users ==> r[userId] == users[userId].(approved := true)
    ensures forall id :: id in users && id != userId ==> r[id] == users[id]
  {
    if userId in users then users[userId := users[userId].(approved := true)] else users
  }

  /** Approving twice is approving once; this follows directly from the
      definition of Approve. */
  lemma ApproveIdempotent(users: map<int, UserRow>, userId: int)
    ensures Approve(Approve(users, userId), userId) == Approve(users, userId)
  {
  }

  /** Approval is monotone: nobody approved loses it, and the target of an
      existing row becomes approved. This follows directly from the
      definition of Approve. */
  lemma ApproveMonotone(users: map<int, UserRow>, userId: int, other: int)
    ensures IsApproved(users, other) ==> IsApproved(Approve(users, userId), other)
    ensures IsApproved(Approve(users, userId), userId) <==> userId in users
  {
  }

  /** Approval removes exactly the approved id from the pending list and keeps
      the order of the rest. */
  lemma {:induction false} ApproveRemovesFromPending(users: map<int, UserRow>, userId: int)
    ensures PendingUsers(Approve(users, userId)) == RemoveId(PendingUsers(users), userId)
  {
    var after := Approve(users, userId);
    var ids := AscendingIds(users.Keys);
    assert AscendingIds(after.Keys) == ids;
    PendingAmongApprove(users, ids, userId);
  }

  /** The rows whose id differs from the given one, order kept. */
  function RemoveId(rows: seq<PendingUser>, userId: int): (r: seq<PendingUser>)
    ensures forall p :: p in r <==> p in rows && p.userId != userId
  {
    if rows == [] then []
    else if rows[0].userId == userId then RemoveId(rows[1..], userId)
    else [rows[0]] + RemoveId(rows[1..], userId)
  }

  lemma {:induction false} PendingAmongApprove(users: map<int, UserRow>, ids: seq<int>, userId: int)
    requires forall i :: 0 <= i < |ids| ==> ids[i] in users
    ensures PendingAmong(Approve(users, userId), ids) == RemoveId(PendingAmong(users, ids), userId)
  {
    if ids != [] {
      PendingAmongApprove(users, ids[1..], userId);
    }
  }

  // ---------------------------------------------------------------------
  // add_user

  /** Whether a failed attempt is the "database is locked" error that is retried. */
  predicate IsLocked(c: Condition) {
    c.Failed? && PyText.Contains(c.message, LockedMessage)
  }

  /** The row `add_user` inserts: approved = 0 and subscribed left at its default 0. */
  function NewRow(email: string, password: string): UserRow {
    UserRow(email, password, false, false)
  }

  /** `add_user` from attempt k on, given what each attempt runs into. */
  function AddFrom(users: map<int, UserRow>, userId: int, email: string, password: string,
                   conditions: seq<Condition>, k: nat): (run: AddRun)
    requires k <= MaxAttempts <= |conditions|
    decreases MaxAttempts - k
    ensures k <= run.attempts <= MaxAttempts
    ensures run.users == users || (userId !in users && run.users == users[userId := NewRow(email, password)])
    ensures run.users != users ==> run.outcome == Returned
  {
    if k == MaxAttempts then AddRun(Returned, users, k)
    else match conditions[k]
      case Free =>
        if userId in users then AddRun(Raised(IntegrityError), users, k + 1)
        else AddRun(Returned, users[userId := NewRow(email, password)], k + 1)
      case Failed(message) =>
        if PyText.Contains(message, LockedMessage) then AddFrom(users, userId, email, password, conditions, k + 1)
        else AddRun(Raised(OperationalError(message)), users, k + 1)
  }

  /** `add_user(user_id, email, password)` */
  function AddUserRun(users: map<int, UserRow>, userId: int, email: string, password: string,
                      conditions: seq<Condition>): (run: AddRun)
    requires MaxAttempts <= |conditions|
    ensures 1 <= run.attempts <= MaxAttempts
    ensures run.users == users || (userId !in users && run.users == users[userId := NewRow(email, password)])
    ensures run.users != users ==> run.outcome == Returned
  {
    AddFrom(users, userId, email, password, conditions, 0)
  }

  /** Index of the first attempt from k on that is not a locked failure, or
      MaxAttempts when all of them are. */
  function FirstUnlocked(conditions: seq<Condition>, k: nat): (j: nat)
    requires k <= MaxAttempts <= |conditions|
    decreases MaxAttempts - k
    ensures k <= j <= MaxAttempts
    ensures forall i :: k <= i < j ==> IsLocked(conditions[i])
    ensures j < MaxAttempts ==> !IsLocked(conditions[j])
  {
    if k == MaxAttempts || !IsLocked(conditions[k]) then k else FirstUnlocked(conditions, k + 1)
  }

  /**
   * The retry loop, attempt by attempt: locked attempts are retried; the
   * first other attempt decides and ends the loop at once: a free database
   * inserts the row or, for a taken user_id, raises IntegrityError; any other
   * OperationalError is raised again. If all five attempts are locked the
   * call returns normally and inserts nothing.
   */
  lemma {:induction false} AddFromDecided(users: map<int, UserRow>, userId: int, email: string,
                                          password: string, conditions: seq<Condition>, k: nat)
    requires k <= MaxAttempts <= |conditions|
    decreases MaxAttempts - k
    ensures var j := FirstUnlocked(conditions, k);
      var run := AddFrom(users, userId, email, password, conditions, k);
      && (j == MaxAttempts ==> run == AddRun(Returned, users, MaxAttempts))
      && (j < MaxAttempts && conditions[j].Free? && userId in users ==>
            run == AddRun(Raised(IntegrityError), users, j + 1))
      && (j < MaxAttempts && conditions[j].Free? && userId !in users ==>
            run == AddRun(Returned, users[userId := NewRow(email, password)], j + 1))
      && (j < MaxAttempts && conditions[j].Failed? ==>
            run == AddRun(Raised(OperationalError(conditions[j].message)), users, j + 1))
  {
    if k < MaxAttempts && IsLocked(conditions[k]) {
      AddFromDecided(users, userId, email, password, conditions, k + 1);
    }
  }

  /** After `add_user` has inserted, the new row is there unapproved, the user
      is not approved and is listed among the pending users. */
  lemma AddedUserIsPending(users: map<int, UserRow>, userId: int, email: string, password: string,
                           conditions: seq<Condition>)
    requires MaxAttempts <= |conditions|
    requires AddUserRun(users, userId, email, password, conditions).users != users
    ensures var after := AddUserRun(users, userId, email, password, conditions).users;
      && after == users[userId := UserRow(email, password, false, false)]
      && !IsApproved(after, userId)
      && PendingUser(userId, email) in PendingUsers(after)
  {
    var after := AddUserRun(users, userId, email, password, conditions).users;
    assert IsPendingRow(after, PendingUser(userId, email));
  }

  // ---------------------------------------------------------------------
  // the database file

  class SubscriptionDb {
    var hasTables: bool
    var users: map<int, UserRow>
    var admin: seq<string>

    function State(): Db
      reads this
    {
      Db(hasTables, users, admin)
    }

    ghost predicate Valid()
      reads this
    {
      WellFormed(State())
    }

    /** Opening the database file in whatever state an earlier run left it. */
    constructor (existing: Db)
      requires WellFormed(existing)
      ensures Valid() && State() == existing
    {
      hasTables, users, admin := existing.hasTables, existing.users, existing.admin;
    }

    /** `db_setup` */
    method DbSetup()
      requires Valid()
      modifies this
      ensures Valid() && State() == Setup(old(State()))
    {
      hasTables := true;
      var count := |admin|;
      if count == 0 {
        admin := admin + [""];
      }
    }

    /** `approve_user`: sets approved for that id only; an unknown id is a silent no-op. */
    method ApproveUser(userId: int)
      requires Valid() && hasTables
      modifies this
      ensures Valid() && hasTables && admin == old(admin)
      ensures users == Approve(old(users), userId)
    {
      if userId in users {
        users := users[userId := users[userId].(approved := true)];
      }
    }

    /**
     * `add_user`: up to five INSERT attempts; conditions[i] is what attempt i
     * runs into. Returns how the call ends and how many attempts it made.
     */
    method AddUser(userId: int, email: string, password: string, conditions: seq<Condition>)
      returns (outcome: AddOutcome, attempts: nat)
      requires Valid() && hasTables
      requires MaxAttempts <= |conditions|
      modifies this
      ensures Valid() && hasTables && admin == old(admin)
      ensures AddRun(outcome, users, attempts) == AddUserRun(old(users), userId, email, password, conditions)
    {
      outcome := Returned;
      attempts := 0;
      while attempts < MaxAttempts
        invariant attempts <= MaxAttempts
        invariant users == old(users)
        invariant AddFrom(users, userId, email, password, conditions, attempts)
                  == AddUserRun(old(users), userId, email, password, conditions)
      {
        var condition := conditions[attempts];
        attempts := attempts + 1;
        match condition
        case Free =>
          if userId in users {
            outcome := Raised(IntegrityError);
            return;
          }
          users := users[userId := NewRow(email, password)];
          break;
        case Failed(message) =>
          if !PyText.Contains(message, LockedMessage) {
            outcome := Raised(OperationalError(message));
            return;
          }
      }
    }
  }
}
