/**
 * The JavaScript storage class: `getCertificate` compares under `UPPER` and turns
 * a failed query into null; `createCertificate` fills four defaults and rethrows;
 * `checkCertificateExists` compares exactly and turns a failed query into false.
 */
module StorageJs {
  import opened Wrappers
  import opened Ascii
  import opened Records
  import opened Sql
  import opened Store

  /** The first row (table order) whose number equals `n` under upper-casing; null on error. */
  function GetCertificate(view: Result<seq<CertRow>, DbError>, n: string): (r: Option<CertRow>)
    ensures view.Err? ==> r.None?
    ensures view.Ok? ==> (r.Some? <==> exists row :: row in view.value && SameUpper(row.certificatenumber, n))
    ensures r.Some? ==> SameUpper(r.value.certificatenumber, n)
    ensures r.Some? ==> exists i :: 0 <= i < |view.value| && view.value[i] == r.value && NoneBefore(view.value, UpperIs(n), i)
  {
    match view
    case Err(_) => None
    case Ok(rows) =>
      var hits := Where(rows, UpperIs(n));
      if |hits| > 0 then
        assert hits[0] in hits;
        Some(hits[0])
      else None
  }

  /** `SELECT id ... WHERE certificatenumber = $1`: exact equality; false on error. */
  function CheckCertificateExists(view: Result<seq<CertRow>, DbError>, n: string): (r: bool)
    ensures view.Err? ==> !r
    ensures view.Ok? ==> (r <==> HasNumber(view.value, n))
  {
    match view
    case Err(_) => false
    case Ok(rows) =>
      var hits := Where(rows, NumberIs(n));
      if |hits| > 0 then
        assert hits[0] in hits;
        true
      else
        assert forall i :: 0 <= i < |rows| ==> rows[i] in rows;
        false
  }

  /** A number stored exactly is also found under upper-casing. */
  lemma ExistsThenFound(view: Result<seq<CertRow>, DbError>, n: string)
    requires CheckCertificateExists(view, n)
    ensures GetCertificate(view, n).Some?
  {
    var i :| 0 <= i < |view.value| && view.value[i].certificatenumber == n;
    assert view.value[i] in view.value;
  }

  /** The converse fails: a number differing only in case is found but does not "exist". */
  lemma FoundButNotExisting(row: CertRow)
    requires row.certificatenumber == "GIE-2024-001234"
    ensures GetCertificate(Ok([row]), "gie-2024-001234") == Some(row)
    ensures !CheckCertificateExists(Ok([row]), "gie-2024-001234")
  {
    assert Upper("gie-2024-001234") == "GIE-2024-001234";
    assert SameUpper(row.certificatenumber, "gie-2024-001234");
    assert forall r :: r in [row] ==> r == row;
  }

  // ---------------------------------------------------------------- dates

  /** A calendar date in UTC, as `new Date()` reads the clock. */
  datatype Date = Date(year: nat, month: nat, day: nat)

  /** The dates `toISOString` writes with a four-digit year. */
  predicate ValidDate(d: Date)
  {
    d.year <= 9999 && 1 <= d.month <= 12 && 1 <= d.day <= 31
  }

  predicate IsDigit(c: char) { '0' <= c <= '9' }

  function Digit(v: nat): (c: char)
    requires v < 10
    ensures IsDigit(c) && (c as int) - ('0' as int) == v
  {
    ('0' as int + v) as char
  }

  /** `v` written in exactly `width` digits, with leading zeros. */
  function Padded(v: nat, width: nat): (r: string)
    ensures |r| == width
    ensures forall i :: 0 <= i < |r| ==> IsDigit(r[i])
  {
    if width == 0 then "" else Padded(v / 10, width - 1) + [Digit(v % 10)]
  }

  /** The value the digits spell. */
  function DigitsValue(s: string): nat
  {
    if s == [] then 0
    else
      var c := s[|s| - 1];
      DigitsValue(s[..|s| - 1]) * 10 + (if IsDigit(c) then (c as int) - ('0' as int) else 0)
  }

  function Pow10(k: nat): (r: nat)
    ensures r >= 1
  {
    if k == 0 then 1 else 10 * Pow10(k - 1)
  }

  /** Padding loses nothing as long as the value fits the width. */
  lemma {:induction false} PaddedValue(v: nat, width: nat)
    requires v < Pow10(width)
    ensures DigitsValue(Padded(v, width)) == v
  {
    if width > 0 {
      PaddedValue(v / 10, width - 1);
      var s := Padded(v, width);
      assert s[..|s| - 1] == Padded(v / 10, width - 1);
    }
  }

  /** `toISOString().split('T')[0]`: `YYYY-MM-DD`. */
  function IsoDate(d: Date): (r: string)
    requires ValidDate(d)
    ensures |r| == 10 && r[4] == '-' && r[7] == '-'
    ensures forall i :: 0 <= i < 10 && i != 4 && i != 7 ==> IsDigit(r[i])
  {
    Padded(d.year, 4) + "-" + Padded(d.month, 2) + "-" + Padded(d.day, 2)
  }

  /** Reads a `YYYY-MM-DD` string back into a date. */
  function ParseIsoDate(s: string): Option<Date>
  {
    if |s| == 10 && s[4] == '-' && s[7] == '-' then
      Some(Date(DigitsValue(s[..4]), DigitsValue(s[5..7]), DigitsValue(s[8..])))
    else None
  }

  /** The written date names the same day: writing it is one-to-one. */
  lemma IsoDateRoundTrip(d: Date)
    requires ValidDate(d)
    ensures ParseIsoDate(IsoDate(d)) == Some(d)
  {
    var s := IsoDate(d);
    assert s[..4] == Padded(d.year, 4);
    assert s[5..7] == Padded(d.month, 2);
    assert s[8..] == Padded(d.day, 2);
    assert Pow10(4) == 10000 && Pow10(2) == 100;
    PaddedValue(d.year, 4);
    PaddedValue(d.month, 2);
    PaddedValue(d.day, 2);
  }

  // ---------------------------------------------------------------- createCertificate

  /**
   * The INSERT's parameters: every field as given, except `symmetry || 'Excellent'`,
   * `fluorescence || 'None'`, `issueDate || today` and `imageUrl || null`.
   */
  function WithDefaults(data: Draft, today: Date): (v: CertValues)
    requires ValidDate(today)
    ensures v.certificatenumber == data.certificateNumber && v.gemstonetype == data.gemstoneType
    ensures v.caratweight == data.caratWeight && v.color == data.color && v.clarity == data.clarity
    ensures v.cut == data.cut && v.polish == data.polish && v.measurements == data.measurements
    ensures v.origin == data.origin
    ensures v.symmetry == if Falsy(data.symmetry) then Some("Excellent") else data.symmetry
    ensures v.fluorescence == if Falsy(data.fluorescence) then Some("None") else data.fluorescence
    ensures v.issuedate == if Falsy(data.issueDate) then Some(IsoDate(today)) else data.issueDate
    ensures v.imageurl == if Falsy(data.imageUrl) then None else data.imageUrl
  {
    CertValues(data.certificateNumber, data.gemstoneType, data.caratWeight, data.color,
      data.clarity, data.cut, data.polish, Or(data.symmetry, Some("Excellent")),
      Or(data.fluorescence, Some("None")), data.measurements, data.origin,
      Or(data.issueDate, Some(IsoDate(today))), Or(data.imageUrl, None))
  }

  /**
   * The defaulted columns are never NULL, so only the nine columns without a
   * default can make the INSERT fail its NOT NULL constraints.
   */
  lemma DefaultsNeverNull(data: Draft, today: Date)
    requires ValidDate(today)
    ensures FirstNullColumn(WithDefaults(data, today)).None? <==>
      data.certificateNumber.Some? && data.gemstoneType.Some? && data.caratWeight.Some?
      && data.color.Some? && data.clarity.Some? && data.cut.Some? && data.polish.Some?
      && data.measurements.Some? && data.origin.Some?
  {
  }

  /** A defaulted issue date is the day of the request in `YYYY-MM-DD` form. */
  lemma DefaultIssueDateIsToday(data: Draft, today: Date)
    requires ValidDate(today) && Falsy(data.issueDate)
    ensures ParseIsoDate(WithDefaults(data, today).issuedate.value) == Some(today)
  {
    IsoDateRoundTrip(today);
  }

  /**
   * `createCertificate`: inserts the defaulted values and returns the stored row;
   * every error is logged and thrown again.
   */
  method CreateCertificate(db: Database, data: Draft, today: Date) returns (r: Result<CertRow, DbError>)
    requires db.Valid() && ValidDate(today)
    modifies db`certificates, db`nextCertId, db`clock
    ensures db.Valid()
    ensures !db.online ==> r == Err(Unreachable) && unchanged(db)
    ensures db.online && old(db.certificates).None? ==> r == Err(UndefinedTable("certificates")) && unchanged(db)
    ensures db.online && old(db.certificates).Some? ==>
      var v := WithDefaults(data, today);
      var o := CertInsert(old(db.certificates).value, v, old(db.nextCertId), old(db.clock), false);
      && db.nextCertId == old(db.nextCertId) + 1
      && (o.Inserted? ==> r == Ok(o.row) && db.certificates == Some(old(db.certificates).value + [o.row])
                          && db.clock == old(db.clock) + 1)
      && (o.Rejected? ==> r == Err(o.error) && db.certificates == old(db.certificates) && db.clock == old(db.clock))
      && !o.Skipped?
  {
    var v := WithDefaults(data, today);
    var inserted := db.InsertCertificate(v, false);
    match inserted
    case Ok(Some(row)) =>
      r := Ok(row);
    case Ok(None) =>
      assert false;
    case Err(e) =>
      r := Err(e);
  }
}
