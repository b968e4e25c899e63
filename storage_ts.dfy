/**
 * The TypeScript storage class: `getCertificate` tries the exact number and then
 * `ILIKE`, `checkCertificateExists` asks `ILIKE` alone, and `createCertificate`
 * inserts the values it is given. Every query error rejects the returned promise,
 * which is `Err` here.
 */
module StorageTs {
  import opened Wrappers
  import opened Ascii
  import opened Records
  import opened Sql
  import opened Store
  import Like

  /**
   * `getCertificate`: the first row (table order) whose number equals `n` exactly;
   * failing that, the first row whose number matches the pattern `n` under `ILIKE`.
   */
  function GetCertificate(view: Result<seq<CertRow>, DbError>, n: string): (r: Result<Option<CertRow>, DbError>)
    ensures view.Err? ==> r == Err(view.error)
    ensures view.Ok? && HasNumber(view.value, n) ==>
      r.Ok? && r.value.Some? && r.value.value.certificatenumber == n
      && exists i :: 0 <= i < |view.value| && view.value[i] == r.value.value && NoneBefore(view.value, NumberIs(n), i)
    ensures view.Ok? && !HasNumber(view.value, n) ==>
      r.Ok? && (r.value.Some? <==> exists row :: row in view.value && Like.IMatches(row.certificatenumber, n))
    ensures view.Ok? && !HasNumber(view.value, n) && r.Ok? && r.value.Some? ==>
      Like.IMatches(r.value.value.certificatenumber, n)
      && exists i :: 0 <= i < |view.value| && view.value[i] == r.value.value && NoneBefore(view.value, NumberILike(n), i)
  {
    match view
    case Err(e) => Err(e)
    case Ok(rows) =>
      var exact := Where(rows, NumberIs(n));
      if |exact| > 0 then
        assert exact[0] in exact;
        Ok(Some(exact[0]))
      else
        assert !HasNumber(rows, n) by {
          forall i | 0 <= i < |rows| ensures rows[i].certificatenumber != n {
            assert rows[i] in rows;
          }
        }
        var fuzzy := Where(rows, NumberILike(n));
        if |fuzzy| > 0 then
          assert fuzzy[0] in fuzzy;
          Ok(Some(fuzzy[0]))
        else Ok(None)
  }

  /** `checkCertificateExists`: does some row match the pattern `n` under `ILIKE`? */
  function CheckCertificateExists(view: Result<seq<CertRow>, DbError>, n: string): (r: Result<bool, DbError>)
    ensures view.Err? ==> r == Err(view.error)
    ensures view.Ok? ==> r.Ok? && (r.value <==> exists row :: row in view.value && Like.IMatches(row.certificatenumber, n))
  {
    match view
    case Err(e) => Err(e)
    case Ok(rows) =>
      var hits := Where(rows, NumberILike(n));
      if |hits| > 0 then
        assert hits[0] in hits;
        Ok(true)
      else Ok(false)
  }

  /**
   * For a number free of `%`, `_` and `\`, the fallback is case-insensitive equality:
   * the lookup finds a row exactly when some stored number equals `n` up to case.
   */
  lemma PlainLookupIgnoresCase(rows: seq<CertRow>, n: string)
    requires Like.Plain(n)
    ensures GetCertificate(Ok(rows), n).value.Some? <==> exists row :: row in rows && SameLower(row.certificatenumber, n)
    ensures CheckCertificateExists(Ok(rows), n).value <==> exists row :: row in rows && SameLower(row.certificatenumber, n)
  {
    forall row | row in rows ensures Like.IMatches(row.certificatenumber, n) <==> SameLower(row.certificatenumber, n) {
      Like.PlainIMatchesIffSameLower(row.certificatenumber, n);
    }
    if HasNumber(rows, n) {
      var i :| 0 <= i < |rows| && rows[i].certificatenumber == n;
      assert rows[i] in rows && SameLower(rows[i].certificatenumber, n);
    }
  }

  /** An existence check that succeeds means the lookup finds a record. */
  lemma ExistsThenFound(rows: seq<CertRow>, n: string)
    requires CheckCertificateExists(Ok(rows), n).value
    ensures GetCertificate(Ok(rows), n).value.Some?
  {
  }

  /**
   * The wildcard caveat: `%` is a pattern, so on any table with rows and no number
   * literally `%`, both queries report the first certificate.
   */
  lemma PercentFindsAnything(rows: seq<CertRow>)
    requires rows != [] && !HasNumber(rows, "%")
    ensures GetCertificate(Ok(rows), "%") == Ok(Some(rows[0]))
    ensures CheckCertificateExists(Ok(rows), "%") == Ok(true)
  {
    assert Lower("%") == "%";
    Like.PercentMatchesAll(Lower(rows[0].certificatenumber));
    WhereHeadIsFirstMatch(rows, NumberILike("%"), 0);
  }

  /**
   * The exact test and the pattern test can disagree the other way: a stored
   * number with a backslash is found by `getCertificate` but not by
   * `checkCertificateExists`, whose `ILIKE` reads `\B` as an escaped `B`.
   */
  lemma ExactNumberMissedByPattern(row: CertRow)
    requires row.certificatenumber == "A\\B"
    ensures GetCertificate(Ok([row]), "A\\B") == Ok(Some(row))
    ensures CheckCertificateExists(Ok([row]), "A\\B") == Ok(false)
  {
    assert Lower("A\\B") == "a\\b";
    assert !Like.Matches("a\\b", "a\\b");
    assert !Like.IMatches(row.certificatenumber, "A\\B");
    assert forall r :: r in [row] ==> r == row;
  }

  /**
   * `createCertificate`: one `INSERT ... RETURNING *`. The stored row is returned; a
   * violated NOT NULL or exact UNIQUE constraint, or any other error, is thrown.
   */
  method CreateCertificate(db: Database, v: CertValues) returns (r: Result<CertRow, DbError>)
    requires db.Valid()
    modifies db`certificates, db`nextCertId, db`clock
    ensures db.Valid()
    ensures !db.online ==> r == Err(Unreachable) && unchanged(db)
    ensures db.online && old(db.certificates).None? ==> r == Err(UndefinedTable("certificates")) && unchanged(db)
    ensures db.online && old(db.certificates).Some? ==>
      var before := old(db.certificates).value;
      && db.nextCertId == old(db.nextCertId) + 1
      && (FirstNullColumn(v).Some? ==>
            r == Err(NotNullViolation(FirstNullColumn(v).value)) && db.certificates == old(db.certificates)
            && db.clock == old(db.clock))
      && (FirstNullColumn(v).None? && HasNumber(before, v.certificatenumber.value) ==>
            r == Err(UniqueViolation("certificatenumber")) && db.certificates == old(db.certificates)
            && db.clock == old(db.clock))
      && (FirstNullColumn(v).None? && !HasNumber(before, v.certificatenumber.value) ==>
            var row := RowOf(v, old(db.nextCertId), old(db.clock));
            r == Ok(row) && db.certificates == Some(before + [row]) && db.clock == old(db.clock) + 1)
  {
    var inserted := db.InsertCertificate(v, false);
    match inserted
    case Ok(Some(row)) =>
      r := Ok(row);
    case Ok(None) =>
      assert false;
    case Err(e) =>
      r := Err(e);
  }
}
