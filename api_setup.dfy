/**
 * The serverless database setup handler: on `POST` it creates both tables if they
 * are missing, inserts the `admin` user unless one exists, and inserts each of the
 * three sample certificates, in order, unless a row with exactly its number exists.
 */
module ApiSetup {
  import opened Wrappers
  import opened Records
  import opened Store
  import opened Http

  /** The sample certificates, in the order the loop inserts them. */
  const Samples: seq<CertValues> := [
    CertValues(Some("GIE-2024-001234"), Some("Natural Diamond"), Some("1.25"), Some("D"), Some("VVS1"),
      Some("Excellent"), Some("Excellent"), Some("Excellent"), Some("None"), Some("6.85 x 6.91 x 4.24 mm"),
      Some("Natural"), Some("2024-01-15"), Some("/diamond-sample.jpg")),
    CertValues(Some("GIE-2024-001235"), Some("Ruby"), Some("2.15"), Some("Pigeon Blood Red"), Some("VS1"),
      Some("Oval"), Some("Very Good"), Some("Very Good"), Some("None"), Some("8.12 x 6.45 x 4.21 mm"),
      Some("Burma (Myanmar)"), Some("2024-01-20"), Some("/ruby-sample.jpg")),
    CertValues(Some("GIE-2024-001236"), Some("Sapphire"), Some("3.45"), Some("Royal Blue"), Some("VVS2"),
      Some("Cushion"), Some("Excellent"), Some("Very Good"), Some("None"), Some("9.15 x 8.92 x 5.78 mm"),
      Some("Kashmir"), Some("2024-02-01"), Some("/sapphire-sample.jpg"))
  ]

  /** Every sample fills every NOT NULL column. */
  predicate Complete(samples: seq<CertValues>)
  {
    forall k :: 0 <= k < |samples| ==> FirstNullColumn(samples[k]).None?
  }

  lemma SamplesComplete()
    ensures Complete(Samples)
  {
  }

  /** Both tables, once created, with their sequences and the clock. */
  datatype Tables = Tables(certs: seq<CertRow>, users: seq<UserRow>, nextCertId: nat, nextUserId: nat, clock: nat)

  ghost predicate TablesOk(t: Tables)
  {
    CertTableOk(t.certs, t.nextCertId, t.clock) && UserTableOk(t.users, t.nextUserId, t.clock)
  }

  /**
   * `INSERT ... ON CONFLICT (certificatenumber) DO NOTHING` of a complete value:
   * appended unless its exact number is stored; the sequence advances either way.
   */
  function InsertIgnore(t: Tables, v: CertValues): (r: Tables)
    requires FirstNullColumn(v).None?
    ensures r.users == t.users && r.nextUserId == t.nextUserId && r.nextCertId == t.nextCertId + 1
    ensures HasNumber(t.certs, v.certificatenumber.value) ==> r.certs == t.certs && r.clock == t.clock
    ensures !HasNumber(t.certs, v.certificatenumber.value) ==>
      r.certs == t.certs + [RowOf(v, t.nextCertId, t.clock)] && r.clock == t.clock + 1
  {
    if HasNumber(t.certs, v.certificatenumber.value) then t.(nextCertId := t.nextCertId + 1)
    else t.(certs := t.certs + [RowOf(v, t.nextCertId, t.clock)], nextCertId := t.nextCertId + 1, clock := t.clock + 1)
  }

  /** The sample loop over `samples`, one insert-or-ignore after another. */
  function SeedCerts(t: Tables, samples: seq<CertValues>): Tables
    requires Complete(samples)
    decreases |samples|
  {
    if samples == [] then t
    else InsertIgnore(SeedCerts(t, samples[..|samples| - 1]), samples[|samples| - 1])
  }

  /** `INSERT INTO users ... VALUES ('admin', 'admin123') ON CONFLICT (username) DO NOTHING`. */
  function AddAdmin(t: Tables): (r: Tables)
    ensures r.certs == t.certs && r.nextCertId == t.nextCertId && r.nextUserId == t.nextUserId + 1
    ensures HasUser(t.users, "admin") ==> r.users == t.users && r.clock == t.clock
    ensures !HasUser(t.users, "admin") ==>
      r.users == t.users + [UserRow(t.nextUserId, "admin", "admin123", t.clock)] && r.clock == t.clock + 1
  {
    if HasUser(t.users, "admin") then t.(nextUserId := t.nextUserId + 1)
    else t.(users := t.users + [UserRow(t.nextUserId, "admin", "admin123", t.clock)],
            nextUserId := t.nextUserId + 1, clock := t.clock + 1)
  }

  /** What a successful run does to the tables. */
  function SetupTables(t: Tables): Tables
  {
    SamplesComplete();
    SeedCerts(AddAdmin(t), Samples)
  }

  // ---------------------------------------------------------------- properties of a run

  /** The sample loop never touches the users, and stored rows stay where they are. */
  lemma {:induction false} SeedCertsKeepsRows(t: Tables, samples: seq<CertValues>)
    requires Complete(samples)
    ensures SeedCerts(t, samples).users == t.users && SeedCerts(t, samples).nextUserId == t.nextUserId
    ensures |SeedCerts(t, samples).certs| >= |t.certs| && SeedCerts(t, samples).certs[..|t.certs|] == t.certs
    decreases |samples|
  {
    if samples != [] {
      var init := samples[..|samples| - 1];
      SeedCertsKeepsRows(t, init);
      var u := SeedCerts(t, init);
      assert InsertIgnore(u, samples[|samples| - 1]).certs[..|u.certs|] == u.certs;
    }
  }

  /** After the loop, every sample number is stored. */
  lemma {:induction false} SeedCertsCovers(t: Tables, samples: seq<CertValues>)
    requires Complete(samples)
    ensures forall k :: 0 <= k < |samples| ==> HasNumber(SeedCerts(t, samples).certs, samples[k].certificatenumber.value)
    decreases |samples|
  {
    if samples != [] {
      var init := samples[..|samples| - 1];
      var last := samples[|samples| - 1];
      SeedCertsCovers(t, init);
      var u := SeedCerts(t, init);
      var w := InsertIgnore(u, last);
      assert w.certs[..|u.certs|] == u.certs;
      forall k | 0 <= k < |samples| ensures HasNumber(w.certs, samples[k].certificatenumber.value) {
        if k < |samples| - 1 {
          assert samples[k] == init[k];
          var i :| 0 <= i < |u.certs| && u.certs[i].certificatenumber == samples[k].certificatenumber.value;
          assert w.certs[i] == u.certs[i];
        } else if !HasNumber(u.certs, last.certificatenumber.value) {
          assert w.certs[|u.certs|] == RowOf(last, u.nextCertId, u.clock);
        }
      }
    }
  }

  /** A loop whose every number is already stored changes no row. */
  lemma {:induction false} SeedCertsSkipsStored(t: Tables, samples: seq<CertValues>)
    requires Complete(samples)
    requires forall k :: 0 <= k < |samples| ==> HasNumber(t.certs, samples[k].certificatenumber.value)
    ensures SeedCerts(t, samples).certs == t.certs
    decreases |samples|
  {
    if samples != [] {
      var init := samples[..|samples| - 1];
      assert forall k :: 0 <= k < |init| ==> init[k] == samples[k];
      SeedCertsSkipsStored(t, init);
    }
  }

  /** The loop keeps the table's invariant: increasing ids and times, exactly distinct numbers. */
  lemma {:induction false} SeedCertsKeepsTableOk(t: Tables, samples: seq<CertValues>)
    requires Complete(samples) && TablesOk(t)
    ensures TablesOk(SeedCerts(t, samples))
    decreases |samples|
  {
    if samples != [] {
      var init := samples[..|samples| - 1];
      var last := samples[|samples| - 1];
      SeedCertsKeepsTableOk(t, init);
      var u := SeedCerts(t, init);
      InsertKeepsTableOk(u.certs, last, u.nextCertId, u.clock, true);
    }
  }

  lemma AddAdminKeepsTablesOk(t: Tables)
    requires TablesOk(t)
    ensures TablesOk(AddAdmin(t))
  {
    if !HasUser(t.users, "admin") {
      var u := AddAdmin(t).users;
      forall i, j | 0 <= i < j < |u| ensures u[i].username != u[j].username {
        if j == |t.users| { assert u[i] == t.users[i]; }
      }
    }
  }

  /** After setup, `admin` exists, and a user that already existed is left untouched. */
  lemma SetupAddsAdmin(t: Tables)
    ensures HasUser(SetupTables(t).users, "admin")
    ensures HasUser(t.users, "admin") ==> SetupTables(t).users == t.users
    ensures !HasUser(t.users, "admin") ==>
      SetupTables(t).users == t.users + [UserRow(t.nextUserId, "admin", "admin123", t.clock)]
  {
    SamplesComplete();
    SeedCertsKeepsRows(AddAdmin(t), Samples);
    if !HasUser(t.users, "admin") {
      assert AddAdmin(t).users[|t.users|].username == "admin";
    }
  }

  /** Rows stored before setup keep their place, and every sample number is stored after it. */
  lemma SetupStoresSamples(t: Tables)
    ensures |SetupTables(t).certs| >= |t.certs| && SetupTables(t).certs[..|t.certs|] == t.certs
    ensures forall k :: 0 <= k < |Samples| ==> HasNumber(SetupTables(t).certs, Samples[k].certificatenumber.value)
  {
    SamplesComplete();
    SeedCertsKeepsRows(AddAdmin(t), Samples);
    SeedCertsCovers(AddAdmin(t), Samples);
  }

  /** Running setup twice leaves the same rows in both tables as running it once. */
  lemma SetupIdempotent(t: Tables)
    ensures SetupTables(SetupTables(t)).certs == SetupTables(t).certs
    ensures SetupTables(SetupTables(t)).users == SetupTables(t).users
  {
    SamplesComplete();
    var once := SetupTables(t);
    SetupAddsAdmin(t);
    SetupAddsAdmin(once);
    SetupStoresSamples(t);
    SeedCertsSkipsStored(AddAdmin(once), Samples);
  }

  /** On a table the database has kept, each sample number then occurs exactly once. */
  lemma SetupStoresEachSampleOnce(t: Tables, k: nat)
    requires TablesOk(t) && k < |Samples|
    ensures TablesOk(SetupTables(t))
    ensures exists i ::
      && 0 <= i < |SetupTables(t).certs|
      && SetupTables(t).certs[i].certificatenumber == Samples[k].certificatenumber.value
      && (forall j :: 0 <= j < |SetupTables(t).certs| && SetupTables(t).certs[j].certificatenumber == Samples[k].certificatenumber.value ==> j == i)
  {
    SamplesComplete();
    AddAdminKeepsTablesOk(t);
    SeedCertsKeepsTableOk(AddAdmin(t), Samples);
    SetupStoresSamples(t);
    var u := SetupTables(t);
    StoredNumberOnce(u.certs, u.nextCertId, u.clock, Samples[k].certificatenumber.value);
  }

  /** Under the UNIQUE constraint a stored number sits at exactly one position. */
  lemma StoredNumberOnce(rows: seq<CertRow>, nextId: nat, clock: nat, n: string)
    requires CertTableOk(rows, nextId, clock) && HasNumber(rows, n)
    ensures exists i ::
      && 0 <= i < |rows| && rows[i].certificatenumber == n
      && (forall j :: 0 <= j < |rows| && rows[j].certificatenumber == n ==> j == i)
  {
    var i :| 0 <= i < |rows| && rows[i].certificatenumber == n;
    assert forall j :: 0 <= j < |rows| && rows[j].certificatenumber == n ==> j == i;
  }

  /** One more turn of the loop. */
  lemma SeedCertsStep(t: Tables, samples: seq<CertValues>, k: nat)
    requires Complete(samples) && k < |samples|
    ensures Complete(samples[..k]) && Complete(samples[..k + 1])
    ensures SeedCerts(t, samples[..k + 1]) == InsertIgnore(SeedCerts(t, samples[..k]), samples[k])
  {
    assert samples[..k + 1][..k] == samples[..k];
  }

  /** The store's insert of a complete value with `DO NOTHING` is `InsertIgnore`. */
  lemma CertInsertIgnore(t: Tables, v: CertValues)
    requires FirstNullColumn(v).None?
    ensures CertInsert(t.certs, v, t.nextCertId, t.clock, true) ==
      if HasNumber(t.certs, v.certificatenumber.value) then Skipped else Inserted(RowOf(v, t.nextCertId, t.clock))
  {
  }

  // ---------------------------------------------------------------- the handler

  const Done := Response(200, SetupDone("Database setup completed successfully", ["certificates", "users"], "inserted"))

  /** The tables as they stand, with a missing table read as empty. */
  function Snapshot(db: Database): Tables
    reads db
  {
    Tables(if db.certificates.Some? then db.certificates.value else [],
      if db.users.Some? then db.users.value else [],
      db.nextCertId, db.nextUserId, db.clock)
  }

  /** One turn of the loop: the insert-or-ignore of one complete sample. */
  method SeedOne(db: Database, v: CertValues)
    requires db.Valid() && db.online && db.certificates.Some? && db.users.Some?
    requires FirstNullColumn(v).None?
    modifies db`certificates, db`nextCertId, db`clock
    ensures db.Valid() && db.certificates.Some?
    ensures Snapshot(db) == InsertIgnore(old(Snapshot(db)), v)
  {
    CertInsertIgnore(Snapshot(db), v);
    var res := db.InsertCertificate(v, true);
    if res.Err? {
      assert false;
    }
  }

  /** The `for` loop over the samples, each inserted unless its number is stored. */
  method SeedSamples(db: Database, samples: seq<CertValues>)
    requires db.Valid() && db.online && db.certificates.Some? && db.users.Some?
    requires Complete(samples)
    modifies db`certificates, db`nextCertId, db`clock
    ensures db.Valid() && db.certificates.Some?
    ensures Snapshot(db) == SeedCerts(old(Snapshot(db)), samples)
  {
    ghost var start := Snapshot(db);
    assert samples[..0] == [];
    for k := 0 to |samples|
      invariant db.Valid() && db.online && db.certificates.Some? && db.users.Some?
      invariant Snapshot(db) == SeedCerts(start, samples[..k])
    {
      SeedCertsStep(start, samples, k);
      SeedOne(db, samples[k]);
    }
    assert samples[..|samples|] == samples;
  }

  /**
   * The handler: anything but `POST` is refused; otherwise the statements run in
   * order, and the first failure (an unreachable database) becomes a 500.
   */
  method Setup(db: Database, httpMethod: string) returns (r: Response)
    requires db.Valid()
    modifies db`certificates, db`users, db`nextCertId, db`nextUserId, db`clock
    ensures db.Valid()
    ensures httpMethod != "POST" ==> r == Response(405, Error("Method not allowed")) && unchanged(db)
    ensures httpMethod == "POST" && !db.online ==>
      r == Response(500, ErrorCause("Database setup failed", Unreachable)) && unchanged(db)
    ensures httpMethod == "POST" && db.online ==>
      r == Done && db.certificates.Some? && db.users.Some? && Snapshot(db) == SetupTables(old(Snapshot(db)))
  {
    if httpMethod != "POST" {
      return Response(405, Error("Method not allowed"));
    }
    ghost var start := Snapshot(db);
    var c := db.CreateCertificatesTable();
    if c.Err? {
      return Response(500, ErrorCause("Database setup failed", c.error));
    }
    var u := db.CreateUsersTable();
    if u.Err? {
      assert false;
    }
    assert Snapshot(db) == start;
    PopulateSamples(db);
    r := Done;
  }

  /** Everything after the two `CREATE TABLE` statements, with the three samples. */
  method PopulateSamples(db: Database)
    requires db.Valid() && db.online && db.certificates.Some? && db.users.Some?
    modifies db`certificates, db`users, db`nextCertId, db`nextUserId, db`clock
    ensures db.Valid() && db.certificates.Some? && db.users.Some?
    ensures Snapshot(db) == SetupTables(old(Snapshot(db)))
  {
    SamplesComplete();
    Populate(db, Samples);
  }

  /** With both tables in place: the admin insert-or-ignore, then the sample loop. */
  method Populate(db: Database, samples: seq<CertValues>)
    requires db.Valid() && db.online && db.certificates.Some? && db.users.Some?
    requires Complete(samples)
    modifies db`certificates, db`users, db`nextCertId, db`nextUserId, db`clock
    ensures db.Valid() && db.certificates.Some? && db.users.Some?
    ensures Snapshot(db) == SeedCerts(AddAdmin(old(Snapshot(db))), samples)
  {
    var start := Snapshot(db);
    var a := db.InsertUserIfAbsent("admin", "admin123");
    if a.Err? {
      assert false;
    }
    assert Snapshot(db) == AddAdmin(start);
    SeedSamples(db, samples);
  }
}
