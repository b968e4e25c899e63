/**
 * The PostgreSQL database every handler talks to: a `certificates` and a `users`
 * table, each created by `CREATE TABLE IF NOT EXISTS` before it exists, their
 * SERIAL id sequences, and the clock behind `createdat DEFAULT CURRENT_TIMESTAMP`.
 * The only constraints the storage layer enforces are NOT NULL and the
 * case-sensitive UNIQUE on `certificatenumber` (and on `username`).
 */
module Store {
  import opened Wrappers
  import opened Records

  predicate HasNumber(rows: seq<CertRow>, n: string)
  {
    exists i :: 0 <= i < |rows| && rows[i].certificatenumber == n
  }

  predicate HasUser(users: seq<UserRow>, name: string)
  {
    exists i :: 0 <= i < |users| && users[i].username == name
  }

  /** What the table keeps true: ids and creation times increase, numbers are UNIQUE. */
  ghost predicate CertTableOk(rows: seq<CertRow>, nextId: nat, clock: nat)
  {
    && (forall i, j :: 0 <= i < j < |rows| ==>
          rows[i].id < rows[j].id && rows[i].createdat < rows[j].createdat)
    && (forall i, j :: 0 <= i < j < |rows| ==> rows[i].certificatenumber != rows[j].certificatenumber)
    && (forall i :: 0 <= i < |rows| ==> rows[i].id < nextId && rows[i].createdat < clock)
  }

  ghost predicate UserTableOk(users: seq<UserRow>, nextId: nat, clock: nat)
  {
    && (forall i, j :: 0 <= i < j < |users| ==> users[i].id < users[j].id)
    && (forall i, j :: 0 <= i < j < |users| ==> users[i].username != users[j].username)
    && (forall i :: 0 <= i < |users| ==> users[i].id < nextId && users[i].createdat < clock)
  }

  /** The first NOT NULL column, in column order, that an INSERT would fill with NULL. */
  function FirstNullColumn(v: CertValues): (r: Option<string>)
    ensures r.None? <==>
      v.certificatenumber.Some? && v.gemstonetype.Some? && v.caratweight.Some? && v.color.Some?
      && v.clarity.Some? && v.cut.Some? && v.polish.Some? && v.symmetry.Some?
      && v.fluorescence.Some? && v.measurements.Some? && v.origin.Some? && v.issuedate.Some?
  {
    if v.certificatenumber.None? then Some("certificatenumber")
    else if v.gemstonetype.None? then Some("gemstonetype")
    else if v.caratweight.None? then Some("caratweight")
    else if v.color.None? then Some("color")
    else if v.clarity.None? then Some("clarity")
    else if v.cut.None? then Some("cut")
    else if v.polish.None? then Some("polish")
    else if v.symmetry.None? then Some("symmetry")
    else if v.fluorescence.None? then Some("fluorescence")
    else if v.measurements.None? then Some("measurements")
    else if v.origin.None? then Some("origin")
    else if v.issuedate.None? then Some("issuedate")
    else None
  }

  /** The row an INSERT of `v` stores, once every NOT NULL column has a value. */
  function RowOf(v: CertValues, id: nat, createdat: nat): (row: CertRow)
    requires FirstNullColumn(v).None?
    ensures ValuesOf(row) == v
    ensures Some(row.certificatenumber) == v.certificatenumber && row.imageurl == v.imageurl
    ensures row.id == id && row.createdat == createdat
  {
    CertRow(id, v.certificatenumber.value, v.gemstonetype.value, v.caratweight.value,
      v.color.value, v.clarity.value, v.cut.value, v.polish.value, v.symmetry.value,
      v.fluorescence.value, v.measurements.value, v.origin.value, v.issuedate.value,
      v.imageurl, createdat)
  }

  /** The stored row's columns read back as INSERT parameters: every column as it stands. */
  function ValuesOf(row: CertRow): (v: CertValues)
    ensures FirstNullColumn(v).None?
  {
    CertValues(Some(row.certificatenumber), Some(row.gemstonetype), Some(row.caratweight),
      Some(row.color), Some(row.clarity), Some(row.cut), Some(row.polish), Some(row.symmetry),
      Some(row.fluorescence), Some(row.measurements), Some(row.origin), Some(row.issuedate),
      row.imageurl)
  }

  /** What one `INSERT INTO certificates` decides, on a table that exists. */
  datatype InsertOutcome = Inserted(row: CertRow) | Skipped | Rejected(error: DbError)

  /**
   * NOT NULL is checked first, then the UNIQUE constraint on the exact number; with
   * `ON CONFLICT (certificatenumber) DO NOTHING` a conflict skips the row instead.
   */
  function CertInsert(rows: seq<CertRow>, v: CertValues, id: nat, clock: nat, doNothing: bool): InsertOutcome
  {
    match FirstNullColumn(v)
    case Some(column) => Rejected(NotNullViolation(column))
    case None =>
      if !HasNumber(rows, v.certificatenumber.value) then Inserted(RowOf(v, id, clock))
      else if doNothing then Skipped
      else Rejected(UniqueViolation("certificatenumber"))
  }

  /**
   * The UNIQUE constraint is exact: an INSERT succeeds exactly when no stored
   * number is equal, character for character, to the new one, and keeps the table's
   * invariant.
   */
  lemma InsertKeepsTableOk(rows: seq<CertRow>, v: CertValues, id: nat, clock: nat, doNothing: bool)
    requires CertTableOk(rows, id, clock)
    requires FirstNullColumn(v).None?
    ensures CertInsert(rows, v, id, clock, doNothing).Inserted? <==> !HasNumber(rows, v.certificatenumber.value)
    ensures CertInsert(rows, v, id, clock, doNothing).Skipped? <==> HasNumber(rows, v.certificatenumber.value) && doNothing
    ensures CertInsert(rows, v, id, clock, doNothing).Inserted? ==>
      CertTableOk(rows + [CertInsert(rows, v, id, clock, doNothing).row], id + 1, clock + 1)
  {
    var o := CertInsert(rows, v, id, clock, doNothing);
    if o.Inserted? {
      var t := rows + [o.row];
      forall i, j | 0 <= i < j < |t| ensures t[i].certificatenumber != t[j].certificatenumber {
        if j == |rows| {
          assert t[i] == rows[i];
          assert o.row.certificatenumber == v.certificatenumber.value;
        }
      }
    }
  }

  /** Whatever one INSERT decides, the table it leaves keeps the invariant. */
  lemma CertInsertKeepsTableOk(rows: seq<CertRow>, v: CertValues, id: nat, clock: nat, doNothing: bool)
    requires CertTableOk(rows, id, clock)
    ensures CertTableOk(rows, id + 1, clock)
    ensures CertInsert(rows, v, id, clock, doNothing).Inserted? ==>
      CertTableOk(rows + [CertInsert(rows, v, id, clock, doNothing).row], id + 1, clock + 1)
  {
    if FirstNullColumn(v).None? {
      InsertKeepsTableOk(rows, v, id, clock, doNothing);
    }
  }

  /** Advancing the sequence or the clock keeps a table's invariant. */
  lemma UserTableOkLater(users: seq<UserRow>, id: nat, clock: nat, id': nat, clock': nat)
    requires UserTableOk(users, id, clock) && id <= id' && clock <= clock'
    ensures UserTableOk(users, id', clock')
  {
  }

  class Database {
    /** False while the database cannot be reached: every statement then fails. */
    var online: bool
    /** None until `CREATE TABLE certificates` has run. */
    var certificates: Option<seq<CertRow>>
    var users: Option<seq<UserRow>>
    /** The next values of the two SERIAL sequences, and of CURRENT_TIMESTAMP. */
    var nextCertId: nat
    var nextUserId: nat
    var clock: nat

    ghost predicate Valid()
      reads this
    {
      && (certificates.Some? ==> CertTableOk(certificates.value, nextCertId, clock))
      && (users.Some? ==> UserTableOk(users.value, nextUserId, clock))
    }

    /** What a SELECT on `certificates` sees: its rows, or the error it throws. */
    function CertView(): (r: Result<seq<CertRow>, DbError>)
      reads this
      ensures r.Ok? <==> online && certificates.Some?
      ensures r.Ok? ==> r.value == certificates.value
    {
      if !online then Err(Unreachable)
      else if certificates.None? then Err(UndefinedTable("certificates"))
      else Ok(certificates.value)
    }

    /** What a SELECT on `users` sees. */
    function UserView(): (r: Result<seq<UserRow>, DbError>)
      reads this
      ensures r.Ok? <==> online && users.Some?
      ensures r.Ok? ==> r.value == users.value
    {
      if !online then Err(Unreachable)
      else if users.None? then Err(UndefinedTable("users"))
      else Ok(users.value)
    }

    /** A fresh database with no tables; both sequences start at 1. */
    constructor (online: bool)
      ensures Valid()
      ensures this.online == online && certificates.None? && users.None?
      ensures nextCertId == 1 && nextUserId == 1 && clock == 0
    {
      this.online := online;
      certificates := None;
      users := None;
      nextCertId := 1;
      nextUserId := 1;
      clock := 0;
    }

    /** `CREATE TABLE IF NOT EXISTS certificates`. */
    method CreateCertificatesTable() returns (r: Result<(), DbError>)
      requires Valid()
      modifies this`certificates
      ensures Valid()
      ensures r == if online then Ok(()) else Err(Unreachable)
      ensures certificates == if online && old(certificates).None? then Some([]) else old(certificates)
    {
      if !online {
        return Err(Unreachable);
      }
      if certificates.None? {
        certificates := Some([]);
      }
      return Ok(());
    }

    /** `CREATE TABLE IF NOT EXISTS users`. */
    method CreateUsersTable() returns (r: Result<(), DbError>)
      requires Valid()
      modifies this`users
      ensures Valid()
      ensures r == if online then Ok(()) else Err(Unreachable)
      ensures users == if online && old(users).None? then Some([]) else old(users)
    {
      if !online {
        return Err(Unreachable);
      }
      if users.None? {
        users := Some([]);
      }
      return Ok(());
    }

    /**
     * `INSERT INTO certificates (...) VALUES (v) [ON CONFLICT (certificatenumber) DO NOTHING]
     * RETURNING *`. On a table that exists the statement draws an id from the sequence
     * even when it inserts nothing; only an inserted row advances the clock.
     */
    method InsertCertificate(v: CertValues, doNothing: bool) returns (r: Result<Option<CertRow>, DbError>)
      requires Valid()
      modifies this`certificates, this`nextCertId, this`clock
      ensures Valid()
      ensures !online ==> r == Err(Unreachable) && unchanged(this)
      ensures online && old(certificates).None? ==> r == Err(UndefinedTable("certificates")) && unchanged(this)
      ensures online && old(certificates).Some? ==>
        var o := CertInsert(old(certificates).value, v, old(nextCertId), old(clock), doNothing);
        && nextCertId == old(nextCertId) + 1
        && (o.Inserted? ==> r == Ok(Some(o.row)) && certificates == Some(old(certificates).value + [o.row])
                            && clock == old(clock) + 1)
        && (o.Skipped? ==> r == Ok(None) && certificates == old(certificates) && clock == old(clock))
        && (o.Rejected? ==> r == Err(o.error) && certificates == old(certificates) && clock == old(clock))
    {
      if !online {
        return Err(Unreachable);
      }
      if certificates.None? {
        return Err(UndefinedTable("certificates"));
      }
      var rows := certificates.value;
      var o := CertInsert(rows, v, nextCertId, clock, doNothing);
      CertInsertKeepsTableOk(rows, v, nextCertId, clock, doNothing);
      if users.Some? {
        UserTableOkLater(users.value, nextUserId, clock, nextUserId, clock + 1);
      }
      nextCertId := nextCertId + 1;
      match o
      case Inserted(row) =>
        certificates := Some(rows + [row]);
        clock := clock + 1;
        r := Ok(Some(row));
      case Skipped =>
        r := Ok(None);
      case Rejected(e) =>
        r := Err(e);
    }

    /**
     * `INSERT INTO users (username, password) VALUES (...) ON CONFLICT (username) DO NOTHING`.
     * An existing user of that name is left as it is.
     */
    method InsertUserIfAbsent(username: string, password: string) returns (r: Result<bool, DbError>)
      requires Valid()
      modifies this`users, this`nextUserId, this`clock
      ensures Valid()
      ensures !online ==> r == Err(Unreachable) && unchanged(this)
      ensures online && old(users).None? ==> r == Err(UndefinedTable("users")) && unchanged(this)
      ensures online && old(users).Some? && HasUser(old(users).value, username) ==>
        r == Ok(false) && users == old(users) && clock == old(clock) && nextUserId == old(nextUserId) + 1
      ensures online && old(users).Some? && !HasUser(old(users).value, username) ==>
        && r == Ok(true) && nextUserId == old(nextUserId) + 1 && clock == old(clock) + 1
        && users == Some(old(users).value + [UserRow(old(nextUserId), username, password, old(clock))])
    {
      if !online {
        return Err(Unreachable);
      }
      if users.None? {
        return Err(UndefinedTable("users"));
      }
      var t := users.value;
      nextUserId := nextUserId + 1;
      if HasUser(t, username) {
        return Ok(false);
      }
      var u := UserRow(nextUserId - 1, username, password, clock);
      var t' := t + [u];
      forall i, j | 0 <= i < j < |t'| ensures t'[i].username != t'[j].username {
        if j == |t| { assert t'[i] == t[i]; }
      }
      users := Some(t');
      clock := clock + 1;
      return Ok(true);
    }
  }
}
