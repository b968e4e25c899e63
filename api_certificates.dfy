/**
 * The serverless `/api/certificates` handler: `OPTIONS` answers at once, `GET`
 * lists every row newest first, `POST` demands only a certificate number, refuses
 * an exactly equal one and inserts the body's values as they are; any other method
 * is refused. A thrown database error becomes a 500 carrying its message.
 */
module ApiCertificates {
  import opened Wrappers
  import opened Records
  import opened Sql
  import opened Store
  import opened Http

  const MethodNotAllowed := Response(405, Error("Method not allowed"))

  /** `GET`: `SELECT * FROM certificates ORDER BY createdat DESC`. */
  function ListResponse(view: Result<seq<CertRow>, DbError>): (r: Response)
    ensures view.Err? ==> r == Response(500, ErrorCause("Internal server error", view.error))
    ensures view.Ok? ==> r.Response? && r.status == 200 && r.body.RowList?
    ensures view.Ok? ==> SortedDesc(r.body.rows) && multiset(r.body.rows) == multiset(view.value)
  {
    match view
    case Err(e) => Response(500, ErrorCause("Internal server error", e))
    case Ok(rows) => Response(200, RowList(OrderByCreatedDesc(rows)))
  }

  /** On a table kept by the database, the listing is the table read back to front. */
  lemma ListIsNewestFirst(rows: seq<CertRow>, nextId: nat, clock: nat)
    requires CertTableOk(rows, nextId, clock)
    ensures ListResponse(Ok(rows)) == Response(200, RowList(Reverse(rows)))
  {
    OrderByCreatedDescOfInsertionOrder(rows);
  }

  /** The INSERT's parameters: the body's values, `undefined` becoming NULL. */
  function BodyValues(d: Draft): (v: CertValues)
    ensures v.certificatenumber == d.certificateNumber && v.gemstonetype == d.gemstoneType
    ensures v.caratweight == d.caratWeight && v.color == d.color && v.clarity == d.clarity
    ensures v.cut == d.cut && v.polish == d.polish && v.symmetry == d.symmetry
    ensures v.fluorescence == d.fluorescence && v.measurements == d.measurements
    ensures v.origin == d.origin && v.issuedate == d.issueDate && v.imageurl == d.imageUrl
    ensures FirstNullColumn(v).None? <==>
      d.certificateNumber.Some? && d.gemstoneType.Some? && d.caratWeight.Some? && d.color.Some?
      && d.clarity.Some? && d.cut.Some? && d.polish.Some? && d.symmetry.Some?
      && d.fluorescence.Some? && d.measurements.Some? && d.origin.Some? && d.issueDate.Some?
  {
    CertValues(d.certificateNumber, d.gemstoneType, d.caratWeight, d.color, d.clarity, d.cut,
      d.polish, d.symmetry, d.fluorescence, d.measurements, d.origin, d.issueDate, d.imageUrl)
  }

  const NumberRequired := Response(400, Error("certificateNumber is required"))

  const AlreadyExists := Response(400, ErrorMessage("Certificate number already exists",
    "This certificate number has already been used. Please use a different number."))

  /**
   * The handler, once the request body has been parsed (`req.body || {}`). The
   * table is changed only by a `POST` that passes both checks.
   */
  method Handle(db: Database, httpMethod: string, body: Draft) returns (r: Response)
    requires db.Valid()
    modifies db`certificates, db`nextCertId, db`clock
    ensures db.Valid()
    ensures httpMethod == "OPTIONS" ==> r == Response(204, NoContent) && unchanged(db)
    ensures httpMethod == "GET" ==> r == ListResponse(old(db.CertView())) && unchanged(db)
    ensures httpMethod !in {"OPTIONS", "GET", "POST"} ==> r == MethodNotAllowed && unchanged(db)
    ensures httpMethod == "POST" && Falsy(body.certificateNumber) ==> r == NumberRequired && unchanged(db)
    ensures httpMethod == "POST" && !Falsy(body.certificateNumber) && old(db.CertView()).Err? ==>
      r == Response(500, ErrorCause("Internal server error", old(db.CertView()).error)) && unchanged(db)
    ensures httpMethod == "POST" && !Falsy(body.certificateNumber) && old(db.CertView()).Ok? ==>
      var before := old(db.certificates).value;
      var v := BodyValues(body);
      && (HasNumber(before, body.certificateNumber.value) ==> r == AlreadyExists && unchanged(db))
      && (!HasNumber(before, body.certificateNumber.value) ==>
            && db.nextCertId == old(db.nextCertId) + 1
            && (FirstNullColumn(v).Some? ==>
                  r == Response(500, ErrorCause("Internal server error", NotNullViolation(FirstNullColumn(v).value)))
                  && db.certificates == old(db.certificates) && db.clock == old(db.clock))
            && (FirstNullColumn(v).None? ==>
                  var row := RowOf(v, old(db.nextCertId), old(db.clock));
                  r == Response(201, RowBody(row)) && db.certificates == Some(before + [row])
                  && db.clock == old(db.clock) + 1))
  {
    if httpMethod == "OPTIONS" {
      return Response(204, NoContent);
    }
    if httpMethod == "GET" {
      return ListResponse(db.CertView());
    }
    if httpMethod != "POST" {
      return MethodNotAllowed;
    }
    var n := body.certificateNumber;
    if Falsy(n) {
      return NumberRequired;
    }
    var view := db.CertView();
    if view.Err? {
      return Response(500, ErrorCause("Internal server error", view.error));
    }
    var existing := Where(view.value, NumberIs(n.value));
    if |existing| > 0 {
      assert existing[0] in existing;
      return AlreadyExists;
    }
    assert !HasNumber(view.value, n.value) by {
      forall i | 0 <= i < |view.value| ensures view.value[i].certificatenumber != n.value {
        assert view.value[i] in view.value;
      }
    }
    var inserted := db.InsertCertificate(BodyValues(body), false);
    match inserted
    case Ok(Some(row)) =>
      r := Response(201, RowBody(row));
    case Ok(None) =>
      assert false;
    case Err(e) =>
      r := Response(500, ErrorCause("Internal server error", e));
  }
}
