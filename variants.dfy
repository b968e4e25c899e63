/**
 * How the handlers fit together, and where their tests of "the same number"
 * disagree: the Node server's duplicate check and lookup fold case, the serverless
 * duplicate check, the JavaScript existence check and the UNIQUE constraint do not.
 */
module Variants {
  import opened Wrappers
  import opened Ascii
  import opened Records
  import opened Sql
  import opened Store
  import opened Http
  import ServerIndex
  import StorageTs
  import StorageJs
  import ApiSetup
  import ApiLogin
  import ApiCertificates

  /** The two spellings are the same number once lower-cased. */
  lemma SpellingsSameLower()
    ensures SameLower("GIE-2024-001234", "gie-2024-001234")
    ensures Like.Plain("gie-2024-001234")
  {
    assert Lower("GIE-2024-001234") == "gie-2024-001234";
    assert Lower("gie-2024-001234") == "gie-2024-001234";
  }

  /**
   * With `GIE-2024-001234` stored, `gie-2024-001234` is a duplicate for the Node
   * server's POST and is found by both storage lookups.
   */
  lemma CaseFoldingChecksMatch(row: CertRow)
    requires row.certificatenumber == "GIE-2024-001234"
    ensures ServerIndex.HasLowerDuplicate([row], "gie-2024-001234")
    ensures StorageJs.GetCertificate(Ok([row]), "gie-2024-001234") == Some(row)
    ensures StorageTs.GetCertificate(Ok([row]), "gie-2024-001234") == Ok(Some(row))
    ensures StorageTs.CheckCertificateExists(Ok([row]), "gie-2024-001234") == Ok(true)
  {
    SpellingsSameLower();
    assert row in [row];
    StorageJs.FoundButNotExisting(row);
    StorageTs.PlainLookupIgnoresCase([row], "gie-2024-001234");
    assert forall r :: r in [row] ==> r == row;
  }

  /**
   * ... yet it passes the serverless POST's check, the JavaScript existence check
   * and the UNIQUE constraint, so both spellings can be stored side by side.
   */
  lemma ExactChecksDiffer(row: CertRow, v: CertValues)
    requires row.certificatenumber == "GIE-2024-001234"
    requires FirstNullColumn(v).None? && v.certificatenumber == Some("gie-2024-001234")
    ensures !HasNumber([row], "gie-2024-001234")
    ensures !StorageJs.CheckCertificateExists(Ok([row]), "gie-2024-001234")
    ensures CertInsert([row], v, row.id + 1, row.createdat + 1, false).Inserted?
  {
    StorageJs.FoundButNotExisting(row);
  }

  /** Two rows differing only in case can then both be stored; the lookup returns the newer. */
  lemma LookupReturnsNewest(rows: seq<CertRow>, row: CertRow, n: string)
    requires SameLower(row.certificatenumber, n)
    requires forall other :: other in rows ==> other.createdat < row.createdat
    ensures ServerIndex.Resolve(rows + [row], n) == Response(200, CertificateBody(ToCertificate(row)))
  {
    var t := rows + [row];
    assert row in t && SameLower(row.certificatenumber, n);
    var r := ServerIndex.Resolve(t, n);
    assert exists x :: ServerIndex.IsLatestMatch(t, n, x) && r == Response(200, CertificateBody(ToCertificate(x)));
    var latest :| ServerIndex.IsLatestMatch(t, n, latest)
      && ServerIndex.Resolve(t, n) == Response(200, CertificateBody(ToCertificate(latest)));
    assert row.createdat <= latest.createdat;
    assert latest !in rows;
  }

  /** After setup on a database with no `admin`, `admin`/`admin123` logs in. */
  lemma AdminLogsInAfterSetup(t: ApiSetup.Tables)
    requires !HasUser(t.users, "admin")
    ensures ApiLogin.Login("POST", Some(ApiLogin.Credentials(Some("admin"), Some("admin123"))),
      Ok(ApiSetup.SetupTables(t).users)).status == 200
  {
    ApiSetup.SetupAddsAdmin(t);
    var users := ApiSetup.SetupTables(t).users;
    var i := |t.users|;
    assert forall j :: 0 <= j < i ==> users[j] == t.users[j];
    assert ApiLogin.FirstUser(users, "admin", i);
    ApiLogin.LoginSucceedsIff(users, "admin", "admin123");
  }

  // ---------------------------------------------------------------- scenarios

  /** A complete registration body for `number`. */
  function RubyBody(number: string): (d: Draft)
    ensures d.certificateNumber == Some(number)
  {
    Draft(Some(number), Some("Ruby"), Some("1.10"), Some("Red"), Some("VS1"), Some("Oval"),
      Some("Good"), Some("Good"), Some("None"), Some("6.1 x 5.0 x 3.2 mm"), Some("Burma"),
      Some("2024-03-01"), None)
  }

  lemma RubyBodyComplete(number: string)
    requires number != ""
    ensures ServerIndex.MissingFields(RubyBody(number)) == []
  {
    var d := RubyBody(number);
    assert forall f: ServerIndex.Field :: !Falsy(ServerIndex.DraftField(d, f));
    ServerIndex.NoneFalsyNoneMissing(ServerIndex.RequiredFields, d);
  }

  lemma NewSpellingIsDuplicate(rows: seq<CertRow>)
    requires |rows| == 1 && rows[0].certificatenumber == "GIE-2024-009999"
    ensures ServerIndex.HasLowerDuplicate(rows, "gie-2024-009999")
  {
    assert Lower("GIE-2024-009999") == "gie-2024-009999";
    assert Lower("gie-2024-009999") == "gie-2024-009999";
    assert rows[0] in rows;
  }

  /**
   * The Node server: registering `GIE-2024-009999` and then `gie-2024-009999`
   * stores the first and refuses the second as already used.
   */
  method RegisterTwiceOnServer() returns (first: Response, second: Response)
    ensures first.Response? && first.status == 201
    ensures second == Response(400, Message(ServerIndex.AlreadyUsed))
  {
    var db := new Database(true);
    RubyBodyComplete("GIE-2024-009999");
    RubyBodyComplete("gie-2024-009999");
    first := ServerIndex.PostCertificate(db, Some(RubyBody("GIE-2024-009999")));
    NewSpellingIsDuplicate(db.certificates.value);
    second := ServerIndex.PostCertificate(db, Some(RubyBody("gie-2024-009999")));
  }

  /** The serverless handler stores both spellings, one after the other. */
  method RegisterTwiceServerless() returns (first: Response, second: Response)
    ensures first.Response? && first.status == 201
    ensures second.Response? && second.status == 201
  {
    var db := new Database(true);
    var _ := db.CreateCertificatesTable();
    first := ApiCertificates.Handle(db, "POST", RubyBody("GIE-2024-009999"));
    assert db.certificates.value[0].certificatenumber == "GIE-2024-009999";
    assert !HasNumber(db.certificates.value, "gie-2024-009999");
    second := ApiCertificates.Handle(db, "POST", RubyBody("gie-2024-009999"));
  }

  /** The Node server's POST ignores the seed records: a seed number registers on an empty table. */
  method SeedNumberRegisters() returns (r: Response)
    ensures r.Response? && r.status == 201
  {
    var db := new Database(true);
    RubyBodyComplete("GIE-2024-001234");
    r := ServerIndex.PostCertificate(db, Some(RubyBody("GIE-2024-001234")));
  }

  /**
   * A JSON `null` body: the Node server fails on its first field with a 500, while
   * the serverless handler reads it as `{}` and asks for the certificate number.
   */
  method NullBodyDiffers() returns (server: Response, serverless: Response)
    ensures server == Response(500, Message(ServerIndex.NullBodyMessage))
    ensures serverless == ApiCertificates.NumberRequired
  {
    var db := new Database(true);
    server := ServerIndex.PostCertificate(db, None);
    serverless := ApiCertificates.Handle(db, "POST", EmptyDraft);
  }

  /** With the database unreachable, even a seed number's lookup is a 500, not the seed record. */
  lemma OutageHidesSeed()
    ensures ServerIndex.LookupRoute(Err(Unreachable), ServerIndex.LookupPrefix + "GIE-2024-001234")
      == Response(500, Message("Error fetching certificate"))
  {
    ServerIndex.LookupPathNumber("GIE-2024-001234");
  }
}
