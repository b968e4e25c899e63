/**
 * The Node HTTP server's certificate routes: the in-memory seed records, the
 * content-type table, the lookup route (database first, then the seed records) and
 * `GET`/`POST /api/certificates` (validate, check for a case-insensitive duplicate,
 * insert).
 */
module ServerIndex {
  import opened Wrappers
  import opened Ascii
  import opened Records
  import opened Sql
  import opened Store
  import opened Http
  import Uri

  // ---------------------------------------------------------------- seed records

  /** The three sample certificates the server holds in memory. */
  const Seed: seq<Certificate> := [
    Certificate(1, "GIE-2024-001234", "Natural Diamond", "1.25", "D", "VVS1", "Excellent",
      "Excellent", "Excellent", "None", "6.85 x 6.91 x 4.24 mm", "Natural", "2024-01-15", None, None),
    Certificate(2, "GIE-2024-001235", "Ruby", "2.15", "Pigeon Blood Red", "VS1", "Oval",
      "Very Good", "Very Good", "None", "8.12 x 6.45 x 4.21 mm", "Burma (Myanmar)", "2024-01-20", None, None),
    Certificate(3, "GIE-2024-001236", "Sapphire", "3.45", "Royal Blue", "VVS2", "Cushion",
      "Excellent", "Very Good", "None", "9.15 x 8.92 x 5.78 mm", "Kashmir", "2024-02-01", None, None)
  ]

  /** No certificate before position `i` has number `n` under lower-casing. */
  predicate NoSeedBefore(certs: seq<Certificate>, n: string, i: nat)
    requires i <= |certs|
  {
    forall j :: 0 <= j < i ==> !SameLower(certs[j].certificateNumber, n)
  }

  /** `certificates.find(cert => cert.certificateNumber.toLowerCase() === n.toLowerCase())`. */
  function FindByLower(certs: seq<Certificate>, n: string): (r: Option<Certificate>)
    ensures r.None? <==> forall c :: c in certs ==> !SameLower(c.certificateNumber, n)
    ensures r.Some? ==> SameLower(r.value.certificateNumber, n)
    ensures r.Some? ==> exists i :: 0 <= i < |certs| && certs[i] == r.value && NoSeedBefore(certs, n, i)
  {
    if certs == [] then None
    else if SameLower(certs[0].certificateNumber, n) then
      assert NoSeedBefore(certs, n, 0);
      Some(certs[0])
    else
      var rest := FindByLower(certs[1..], n);
      assert certs == [certs[0]] + certs[1..];
      if rest.Some? then
        var i :| 0 <= i < |certs[1..]| && certs[1..][i] == rest.value && NoSeedBefore(certs[1..], n, i);
        assert certs[i + 1] == rest.value;
        assert NoSeedBefore(certs, n, i + 1) by {
          forall j | 0 <= j < i + 1 ensures !SameLower(certs[j].certificateNumber, n) {
            if j > 0 { assert certs[j] == certs[1..][j - 1]; }
          }
        }
        rest
      else rest
  }

  // ---------------------------------------------------------------- content types

  /** The extension-to-type table of `getContentType`. */
  const Types: map<string, string> := map[
    ".html" := "text/html",
    ".js" := "application/javascript",
    ".css" := "text/css",
    ".json" := "application/json",
    ".png" := "image/png",
    ".jpg" := "image/jpeg",
    ".gif" := "image/gif",
    ".svg" := "image/svg+xml"
  ]

  function TrimTrailingSlashes(p: string): (r: string)
    ensures |r| <= |p| && r == p[..|r|]
    ensures r == [] || r[|r| - 1] != '/'
    ensures forall i :: |r| <= i < |p| ==> p[i] == '/'
    decreases |p|
  {
    if p != [] && p[|p| - 1] == '/' then
      var q := p[..|p| - 1];
      var r := TrimTrailingSlashes(q);
      assert q[..|r|] == p[..|r|];
      assert forall i :: |r| <= i < |q| ==> q[i] == p[i];
      r
    else p
  }

  /** The position of the last `.` in `s`. */
  function LastDot(s: string): (r: Option<nat>)
    ensures r.None? ==> forall i :: 0 <= i < |s| ==> s[i] != '.'
    ensures r.Some? ==> r.value < |s| && s[r.value] == '.'
    ensures r.Some? ==> forall i :: r.value < i < |s| ==> s[i] != '.'
    decreases |s|
  {
    if s == [] then None
    else if s[|s| - 1] == '.' then Some(|s| - 1)
    else LastDot(s[..|s| - 1])
  }

  /** The shape `path.extname` gives a non-empty extension: a dot, then no dot or slash. */
  predicate IsExtension(ext: string)
  {
    |ext| >= 2 && ext[0] == '.' && forall i :: 1 <= i < |ext| ==> ext[i] != '.' && ext[i] != '/'
  }

  /**
   * `path.extname`: from the last `.` of the last path component (trailing slashes
   * ignored) to its end; empty when the component has no `.`, when its last `.` is
   * its first character, or when it is `..`.
   */
  function Extname(p: string): (r: string)
    ensures r == "" || IsExtension(r) || r == "."
  {
    var c := LastSegment(TrimTrailingSlashes(p));
    match LastDot(c)
    case None => ""
    case Some(d) =>
      if d == 0 || c == ".." then ""
      else
        TailFromLastDot(c, d);
        c[d..]
  }

  /** What follows the last `.` of a slash-free segment holds no other `.` or `/`. */
  lemma TailFromLastDot(c: string, d: nat)
    requires '/' !in c && LastDot(c) == Some(d)
    ensures IsExtension(c[d..]) || c[d..] == "."
  {
    var ext := c[d..];
    forall i | 1 <= i < |ext| ensures ext[i] != '.' && ext[i] != '/' {
      assert ext[i] == c[d + i];
    }
  }

  /** `getContentType`: the mapped type, or `text/plain` for any other extension. */
  function ContentType(filePath: string): (r: string)
    ensures Extname(filePath) in Types ==> r == Types[Extname(filePath)]
    ensures Extname(filePath) !in Types ==> r == "text/plain"
  {
    var ext := Extname(filePath);
    if ext in Types then Types[ext] else "text/plain"
  }

  lemma TypesKeysAreExtensions()
    ensures forall ext :: ext in Types ==> IsExtension(ext)
  {
  }

  lemma TrimWithoutTrailingSlash(p: string)
    requires p != [] && p[|p| - 1] != '/'
    ensures TrimTrailingSlashes(p) == p
  {
  }

  /** The last dot is the one no later dot follows. */
  lemma {:induction false} LastDotAt(s: string, k: nat)
    requires k < |s| && s[k] == '.'
    requires forall i :: k < i < |s| ==> s[i] != '.'
    ensures LastDot(s) == Some(k)
    decreases |s|
  {
    if k < |s| - 1 {
      LastDotAt(s[..|s| - 1], k);
    }
  }

  /** The extension of a path whose last component is `seg`, with its last dot at `d`. */
  lemma ExtnameOfSegment(dir: string, seg: string, d: nat)
    requires '/' !in seg && d < |seg| && LastDot(seg) == Some(d)
    ensures Extname(dir + "/" + seg) == if d == 0 || seg == ".." then "" else seg[d..]
  {
    var p := dir + "/" + seg;
    assert p[|p| - 1] == seg[|seg| - 1];
    TrimWithoutTrailingSlash(p);
    LastSegmentAfterSlash(dir, seg);
    assert LastSegment(TrimTrailingSlashes(p)) == seg;
  }

  /** The extension of a file is what follows its name's last dot. */
  lemma ExtnameOfFile(dir: string, name: string, ext: string)
    requires IsExtension(ext)
    requires name != [] && forall i :: 0 <= i < |name| ==> name[i] != '.' && name[i] != '/'
    ensures Extname(dir + "/" + name + ext) == ext
  {
    var seg := name + ext;
    assert forall i :: |name| <= i < |seg| ==> seg[i] == ext[i - |name|];
    assert forall i :: 0 <= i < |name| ==> seg[i] == name[i];
    assert '/' !in seg by {
      forall i | 0 <= i < |seg| ensures seg[i] != '/' { }
    }
    LastDotAt(seg, |name|);
    assert dir + "/" + name + ext == dir + "/" + seg;
    ExtnameOfSegment(dir, seg, |name|);
    assert seg[|name|..] == ext;
  }

  /** A table extension after a non-empty file name selects its type. */
  lemma ContentTypeOfFile(dir: string, name: string, ext: string)
    requires ext in Types
    requires name != [] && forall i :: 0 <= i < |name| ==> name[i] != '.' && name[i] != '/'
    ensures ContentType(dir + "/" + name + ext) == Types[ext]
  {
    TypesKeysAreExtensions();
    ExtnameOfFile(dir, name, ext);
  }

  /** A file whose whole name is an extension, such as `/.png`, has none of its own. */
  lemma ExtnameOfDotFile(dir: string, ext: string)
    requires IsExtension(ext)
    ensures Extname(dir + "/" + ext) == ""
  {
    assert '/' !in ext by {
      forall i | 0 <= i < |ext| ensures ext[i] != '/' { }
    }
    LastDotAt(ext, 0);
    ExtnameOfSegment(dir, ext, 0);
  }

  /** So `/.png` is served as `text/plain`. */
  lemma ContentTypeOfDotFile(dir: string, ext: string)
    requires ext in Types
    ensures ContentType(dir + "/" + ext) == "text/plain"
  {
    TypesKeysAreExtensions();
    ExtnameOfDotFile(dir, ext);
  }

  // ---------------------------------------------------------------- lookup route

  const LookupPrefix := "/api/certificates/lookup/"

  /** `row` matches `n` under lower-casing and no matching row was created later. */
  ghost predicate IsLatestMatch(rows: seq<CertRow>, n: string, row: CertRow)
  {
    && row in rows && SameLower(row.certificatenumber, n)
    && forall other :: other in rows && SameLower(other.certificatenumber, n) ==> other.createdat <= row.createdat
  }

  /**
   * The lookup once the table has answered: the newest row whose number equals `n`
   * under lower-casing, renamed to camelCase; else the first seed record with that
   * number; else 404.
   */
  function Resolve(rows: seq<CertRow>, n: string): (r: Response)
    ensures (exists row :: row in rows && SameLower(row.certificatenumber, n)) ==>
      exists row :: IsLatestMatch(rows, n, row) && r == Response(200, CertificateBody(ToCertificate(row)))
    ensures (forall row :: row in rows ==> !SameLower(row.certificatenumber, n)) ==>
      r == match FindByLower(Seed, n)
           case Some(c) => Response(200, CertificateBody(c))
           case None => Response(404, Message("Certificate not found"))
  {
    var hits := OrderByCreatedDesc(Where(rows, LowerIs(n)));
    if |hits| > 0 then
      NewestHitIsLatest(rows, n);
      Response(200, CertificateBody(ToCertificate(hits[0])))
    else
      NoHitNoMatch(rows, n);
      match FindByLower(Seed, n)
      case Some(c) => Response(200, CertificateBody(c))
      case None => Response(404, Message("Certificate not found"))
  }

  /** The head of the ordered matches is a latest match. */
  lemma NewestHitIsLatest(rows: seq<CertRow>, n: string)
    requires |OrderByCreatedDesc(Where(rows, LowerIs(n)))| > 0
    ensures IsLatestMatch(rows, n, OrderByCreatedDesc(Where(rows, LowerIs(n)))[0])
  {
    var hits := OrderByCreatedDesc(Where(rows, LowerIs(n)));
    assert hits[0] in multiset(hits);
    forall other | other in rows && SameLower(other.certificatenumber, n)
      ensures other.createdat <= hits[0].createdat
    {
      assert other in multiset(Where(rows, LowerIs(n)));
      HeadIsNewest(hits, other);
    }
  }

  /** No ordered matches means no row matches at all. */
  lemma NoHitNoMatch(rows: seq<CertRow>, n: string)
    requires |OrderByCreatedDesc(Where(rows, LowerIs(n)))| == 0
    ensures forall row :: row in rows ==> !SameLower(row.certificatenumber, n)
  {
    var hits := OrderByCreatedDesc(Where(rows, LowerIs(n)));
    assert forall row :: row in rows && SameLower(row.certificatenumber, n) ==> row in multiset(hits);
  }

  /**
   * `GET /api/certificates/lookup/<number>`: a malformed escape in the last path
   * segment reaches the server's last-resort handler; a failing query is a 500, not
   * a fall-back to the seed records.
   */
  function LookupRoute(view: Result<seq<CertRow>, DbError>, pathname: string): (r: Response)
    requires StartsWith(pathname, LookupPrefix)
    ensures Uri.PercentDecode(LastSegment(pathname)).None? ==> r == Response(500, InternalFault)
    ensures Uri.PercentDecode(LastSegment(pathname)).Some? && view.Err? ==>
      r == Response(500, Message("Error fetching certificate"))
    ensures Uri.PercentDecode(LastSegment(pathname)).Some? && view.Ok? ==>
      r == Resolve(view.value, Uri.PercentDecode(LastSegment(pathname)).value)
  {
    match Uri.PercentDecode(LastSegment(pathname))
    case None => Response(500, InternalFault)
    case Some(n) =>
      match view
      case Err(_) => Response(500, Message("Error fetching certificate"))
      case Ok(rows) => Resolve(rows, n)
  }

  lemma {:induction false} WhereLowerOfUpper(rows: seq<CertRow>, n: string)
    ensures Where(rows, LowerIs(Upper(n))) == Where(rows, LowerIs(n))
  {
    LowerOfUpper(n);
    if rows != [] {
      WhereLowerOfUpper(rows[1..], n);
    }
  }

  lemma {:induction false} FindByLowerOfUpper(certs: seq<Certificate>, n: string)
    ensures FindByLower(certs, Upper(n)) == FindByLower(certs, n)
  {
    LowerOfUpper(n);
    if certs != [] {
      FindByLowerOfUpper(certs[1..], n);
    }
  }

  /** The decoded number a lookup path carries. */
  lemma LookupPathNumber(n: string)
    requires '/' !in n && '%' !in n
    ensures StartsWith(LookupPrefix + n, LookupPrefix)
    ensures Uri.PercentDecode(LastSegment(LookupPrefix + n)) == Some(n)
  {
    assert LookupPrefix + n == "/api/certificates/lookup" + "/" + n;
    LastSegmentAfterSlash("/api/certificates/lookup", n);
    assert (LookupPrefix + n)[..|LookupPrefix|] == LookupPrefix;
  }

  /** A URL-encoded number decodes back to the number. */
  lemma LookupPathEncodedNumber(n: string)
    requires Uri.IsAscii(n)
    ensures StartsWith(LookupPrefix + Uri.PercentEncode(n), LookupPrefix)
    ensures Uri.PercentDecode(LastSegment(LookupPrefix + Uri.PercentEncode(n))) == Some(n)
  {
    var e := Uri.PercentEncode(n);
    assert LookupPrefix + e == "/api/certificates/lookup" + "/" + e;
    LastSegmentAfterSlash("/api/certificates/lookup", e);
    assert (LookupPrefix + e)[..|LookupPrefix|] == LookupPrefix;
    Uri.DecodeEncode(n);
  }

  /** Resolving depends on the number only through its lower-cased form. */
  lemma ResolveOfUpper(rows: seq<CertRow>, n: string)
    ensures Resolve(rows, Upper(n)) == Resolve(rows, n)
  {
    WhereLowerOfUpper(rows, n);
    FindByLowerOfUpper(Seed, n);
  }

  /**
   * A number looked up as typed, upper-cased, or URL-encoded finds the same record:
   * only its decoded, lower-cased form reaches the comparison.
   */
  lemma LookupIgnoresCaseAndEncoding(view: Result<seq<CertRow>, DbError>, n: string)
    requires Uri.IsAscii(n) && '/' !in n && '%' !in n
    ensures LookupRoute(view, LookupPrefix + Uri.PercentEncode(n)) == LookupRoute(view, LookupPrefix + n)
    ensures LookupRoute(view, LookupPrefix + Upper(n)) == LookupRoute(view, LookupPrefix + n)
  {
    LookupPathNumber(n);
    LookupPathEncodedNumber(n);
    var u := Upper(n);
    assert '/' !in u && '%' !in u by {
      forall i | 0 <= i < |u| ensures u[i] != '/' && u[i] != '%' { assert n[i] != '/' && n[i] != '%'; }
    }
    LookupPathNumber(u);
    if view.Ok? {
      ResolveOfUpper(view.value, n);
    }
  }

  /** A seed number is found with the table empty or without the number. */
  lemma SeedNumberFoundWithoutTableRow(rows: seq<CertRow>)
    requires forall row :: row in rows ==> !SameLower(row.certificatenumber, "gie-2024-001234")
    ensures Resolve(rows, "gie-2024-001234") == Response(200, CertificateBody(Seed[0]))
  {
    assert SameLower(Seed[0].certificateNumber, "gie-2024-001234");
  }

  // ---------------------------------------------------------------- GET and POST /api/certificates

  /** The body keys `POST /api/certificates` demands. */
  datatype Field =
    | CertificateNumber | GemstoneType | CaratWeight | Color | Clarity | Cut | Polish
    | Symmetry | Fluorescence | Measurements | Origin | IssueDate

  /** The key as it appears in the JSON body. */
  function FieldName(f: Field): string
  {
    match f
    case CertificateNumber => "certificateNumber"
    case GemstoneType => "gemstoneType"
    case CaratWeight => "caratWeight"
    case Color => "color"
    case Clarity => "clarity"
    case Cut => "cut"
    case Polish => "polish"
    case Symmetry => "symmetry"
    case Fluorescence => "fluorescence"
    case Measurements => "measurements"
    case Origin => "origin"
    case IssueDate => "issueDate"
  }

  /** The required fields, in the order the handler reports them. */
  const RequiredFields: seq<Field> := [CertificateNumber, GemstoneType, CaratWeight, Color,
    Clarity, Cut, Polish, Symmetry, Fluorescence, Measurements, Origin, IssueDate]

  lemma RequiredFieldsAreAll()
    ensures forall f: Field :: f in RequiredFields
  {
    forall f: Field ensures f in RequiredFields {
      var i := match f
        case CertificateNumber => 0 case GemstoneType => 1 case CaratWeight => 2
        case Color => 3 case Clarity => 4 case Cut => 5 case Polish => 6 case Symmetry => 7
        case Fluorescence => 8 case Measurements => 9 case Origin => 10 case IssueDate => 11;
      assert RequiredFields[i] == f;
    }
  }

  /** `body[name]`. */
  function DraftField(d: Draft, f: Field): Option<string>
  {
    match f
    case CertificateNumber => d.certificateNumber
    case GemstoneType => d.gemstoneType
    case CaratWeight => d.caratWeight
    case Color => d.color
    case Clarity => d.clarity
    case Cut => d.cut
    case Polish => d.polish
    case Symmetry => d.symmetry
    case Fluorescence => d.fluorescence
    case Measurements => d.measurements
    case Origin => d.origin
    case IssueDate => d.issueDate
  }

  /** `a` is `b` with some elements left out, the rest in their order. */
  predicate IsSubsequence(a: seq<Field>, b: seq<Field>)
    decreases |b|
  {
    a == [] || (b != [] && ((a[0] == b[0] && IsSubsequence(a[1..], b[1..])) || IsSubsequence(a, b[1..])))
  }

  /** `fields.filter(field => !body[field])`. */
  function Missing(fields: seq<Field>, d: Draft): (r: seq<Field>)
    ensures forall f :: f in r <==> f in fields && Falsy(DraftField(d, f))
    ensures IsSubsequence(r, fields)
  {
    if fields == [] then []
    else
      var rest := Missing(fields[1..], d);
      assert fields == [fields[0]] + fields[1..];
      if Falsy(DraftField(d, fields[0])) then
        var r := [fields[0]] + rest;
        assert r[1..] == rest;
        r
      else rest
  }

  function MissingFields(d: Draft): (r: seq<Field>)
  {
    Missing(RequiredFields, d)
  }

  /** Every required field is truthy exactly when none is reported missing. */
  lemma NoMissingFields(d: Draft)
    ensures MissingFields(d) == [] <==> forall f :: f in RequiredFields ==> !Falsy(DraftField(d, f))
  {
    if MissingFields(d) != [] {
      assert MissingFields(d)[0] in MissingFields(d);
    }
  }

  lemma {:induction false} AllFalsyAllMissing(fields: seq<Field>, d: Draft)
    requires forall f :: f in fields ==> Falsy(DraftField(d, f))
    ensures Missing(fields, d) == fields
  {
    if fields != [] {
      AllFalsyAllMissing(fields[1..], d);
      assert fields == [fields[0]] + fields[1..];
    }
  }

  /** When every field is truthy, none is reported. */
  lemma {:induction false} NoneFalsyNoneMissing(fields: seq<Field>, d: Draft)
    requires forall f :: f in fields ==> !Falsy(DraftField(d, f))
    ensures Missing(fields, d) == []
  {
    if fields != [] {
      NoneFalsyNoneMissing(fields[1..], d);
      assert fields[0] in fields;
    }
  }

  /** An unparsable body (read as `{}`) is missing every required field, all twelve listed. */
  lemma EmptyBodyMissesEverything()
    ensures MissingFields(EmptyDraft) == RequiredFields
  {
    assert forall f: Field :: Falsy(DraftField(EmptyDraft, f));
    AllFalsyAllMissing(RequiredFields, EmptyDraft);
  }

  /** No two fields share a key, so the message names each missing field unambiguously. */
  lemma FieldNameInjective(f: Field, g: Field)
    requires FieldName(f) == FieldName(g)
    ensures f == g
  {
  }

  function FieldNames(fs: seq<Field>): (r: seq<string>)
    ensures |r| == |fs| && forall i :: 0 <= i < |fs| ==> r[i] == FieldName(fs[i])
  {
    seq(|fs|, i requires 0 <= i < |fs| => FieldName(fs[i]))
  }

  function MissingMessage(d: Draft): string
  {
    "Missing required fields: " + Join(FieldNames(MissingFields(d)), ", ")
  }

  const AlreadyUsed := "Certificate number already used. This certificate number is already in our system."

  /** With nothing reported missing, every required key holds a non-empty string. */
  lemma NoMissingFieldsAllPresent(d: Draft)
    ensures MissingFields(d) == [] ==>
      && !Falsy(d.certificateNumber) && !Falsy(d.gemstoneType) && !Falsy(d.caratWeight)
      && !Falsy(d.color) && !Falsy(d.clarity) && !Falsy(d.cut) && !Falsy(d.polish)
      && !Falsy(d.symmetry) && !Falsy(d.fluorescence) && !Falsy(d.measurements)
      && !Falsy(d.origin) && !Falsy(d.issueDate)
  {
    if MissingFields(d) == [] {
      NoMissingFields(d);
      RequiredFieldsAreAll();
      assert !Falsy(DraftField(d, CertificateNumber)) && !Falsy(DraftField(d, GemstoneType));
      assert !Falsy(DraftField(d, CaratWeight)) && !Falsy(DraftField(d, Color));
      assert !Falsy(DraftField(d, Clarity)) && !Falsy(DraftField(d, Cut));
      assert !Falsy(DraftField(d, Polish)) && !Falsy(DraftField(d, Symmetry));
      assert !Falsy(DraftField(d, Fluorescence)) && !Falsy(DraftField(d, Measurements));
      assert !Falsy(DraftField(d, Origin)) && !Falsy(DraftField(d, IssueDate));
    }
  }

  /** The INSERT's parameters: each required field as posted, and `body.imageUrl || null`. */
  function PostValues(d: Draft): (v: CertValues)
    ensures v.imageurl.None? <==> Falsy(d.imageUrl)
    ensures !Falsy(d.imageUrl) ==> v.imageurl == d.imageUrl
    ensures v.certificatenumber == d.certificateNumber && v.gemstonetype == d.gemstoneType
    ensures v.caratweight == d.caratWeight && v.color == d.color && v.clarity == d.clarity
    ensures v.cut == d.cut && v.polish == d.polish && v.symmetry == d.symmetry
    ensures v.fluorescence == d.fluorescence && v.measurements == d.measurements
    ensures v.origin == d.origin && v.issuedate == d.issueDate
    ensures MissingFields(d) == [] ==> FirstNullColumn(v).None?
  {
    NoMissingFieldsAllPresent(d);
    CertValues(d.certificateNumber, d.gemstoneType, d.caratWeight, d.color, d.clarity, d.cut,
      d.polish, d.symmetry, d.fluorescence, d.measurements, d.origin, d.issueDate,
      Or(d.imageUrl, None))
  }

  /** Does some stored number equal `n` under `LOWER`? (the duplicate check) */
  predicate HasLowerDuplicate(rows: seq<CertRow>, n: string)
  {
    exists row :: row in rows && SameLower(row.certificatenumber, n)
  }

  /**
   * The 500 a JSON `null` body draws: reading the first required field of `null`
   * throws a TypeError, which the handler's catch reports.
   */
  const NullBodyMessage := "Error creating certificate: Cannot read properties of null (reading 'certificateNumber')"

  /**
   * What `POST /api/certificates` answers and leaves behind, from the parsed body
   * (None for a JSON `null`), the table (None before it is created), its sequence and
   * clock before the request to those after.
   */
  ghost predicate PostOutcome(body: Option<Draft>, online: bool, before: Option<seq<CertRow>>, id: nat, clock: nat,
    r: Response, after: Option<seq<CertRow>>, id': nat, clock': nat)
  {
    && (body.None? ==>
          r == Response(500, Message(NullBodyMessage)) && after == before && id' == id && clock' == clock)
    && (body.Some? ==> DraftOutcome(body.value, online, before, id, clock, r, after, id', clock'))
  }

  /** `PostOutcome` for a body that parsed to an object. */
  ghost predicate DraftOutcome(body: Draft, online: bool, before: Option<seq<CertRow>>, id: nat, clock: nat,
    r: Response, after: Option<seq<CertRow>>, id': nat, clock': nat)
  {
    && (MissingFields(body) != [] ==>
          r == Response(400, Message(MissingMessage(body))) && after == before && id' == id && clock' == clock)
    && (MissingFields(body) == [] && !online ==>
          r == Response(500, MessageCause("Error creating certificate: ", Unreachable))
          && after == before && id' == id && clock' == clock)
    && (MissingFields(body) == [] && online ==>
          var rows := if before.Some? then before.value else [];
          var n := body.certificateNumber.value;
          && (HasLowerDuplicate(rows, n) ==>
                r == Response(400, Message(AlreadyUsed)) && after == Some(rows) && id' == id && clock' == clock)
          && (!HasLowerDuplicate(rows, n) ==>
                var row := RowOf(PostValues(body), id, clock);
                r == Response(201, RowBody(row)) && after == Some(rows + [row]) && id' == id + 1 && clock' == clock + 1))
  }

  /**
   * `POST /api/certificates`: report every missing field; create the table if need
   * be; refuse a number already stored under any casing; otherwise insert one row and
   * return it as stored. The seed records are not consulted. A `null` body fails
   * on its first field with a 500.
   */
  method PostCertificate(db: Database, body: Option<Draft>) returns (r: Response)
    requires db.Valid()
    modifies db`certificates, db`nextCertId, db`clock
    ensures db.Valid()
    ensures PostOutcome(body, db.online, old(db.certificates), old(db.nextCertId), old(db.clock),
      r, db.certificates, db.nextCertId, db.clock)
  {
    if body.None? {
      return Response(500, Message(NullBodyMessage));
    }
    var d := body.value;
    var missing := MissingFields(d);
    if missing != [] {
      return Response(400, Message("Missing required fields: " + Join(FieldNames(missing), ", ")));
    }
    var created := db.CreateCertificatesTable();
    if created.Err? {
      return Response(500, MessageCause("Error creating certificate: ", created.error));
    }
    var n := d.certificateNumber.value;
    var existing := Where(db.CertView().value, LowerIs(n));
    if |existing| > 0 {
      assert existing[0] in existing;
      return Response(400, Message(AlreadyUsed));
    }
    assert !HasLowerDuplicate(db.certificates.value, n);
    var v := PostValues(d);
    assert !HasNumber(db.certificates.value, n);
    var inserted := db.InsertCertificate(v, false);
    match inserted
    case Ok(Some(row)) =>
      r := Response(201, RowBody(row));
    case Ok(None) =>
      assert false;
    case Err(e) =>
      assert false;
  }

  /**
   * `/api/certificates`: `GET` answers with the seed records whatever the table
   * holds, `POST` registers a certificate, and any other method is never answered.
   */
  method CertificatesRoute(db: Database, httpMethod: string, body: Option<Draft>) returns (r: Response)
    requires db.Valid()
    modifies db`certificates, db`nextCertId, db`clock
    ensures db.Valid()
    ensures httpMethod == "GET" ==> r == Response(200, CertificateList(Seed)) && unchanged(db)
    ensures httpMethod != "GET" && httpMethod != "POST" ==> r == NoResponse && unchanged(db)
    ensures httpMethod == "POST" ==>
      PostOutcome(body, db.online, old(db.certificates), old(db.nextCertId), old(db.clock),
        r, db.certificates, db.nextCertId, db.clock)
  {
    if httpMethod == "GET" {
      r := Response(200, CertificateList(Seed));
    } else if httpMethod == "POST" {
      r := PostCertificate(db, body);
    } else {
      r := NoResponse;
    }
  }
}
