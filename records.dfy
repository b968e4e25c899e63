/**
 * The registry's records: a row of the `certificates` table (lower-case column
 * names), the camelCase certificate object the server sends, the request body a
 * client posts, and a row of the `users` table.
 */
module Records {
  import opened Wrappers

  /** What the database driver throws. */
  datatype DbError =
    | Unreachable                      // connection refused, timeout
    | UndefinedTable(table: string)    // the table has not been created yet
    | NotNullViolation(column: string) // a NOT NULL column was given NULL
    | UniqueViolation(column: string)  // the UNIQUE constraint on the column

  /** A row of `certificates`; `id` comes from SERIAL and `createdat` from CURRENT_TIMESTAMP. */
  datatype CertRow = CertRow(
    id: nat,
    certificatenumber: string,
    gemstonetype: string,
    caratweight: string,
    color: string,
    clarity: string,
    cut: string,
    polish: string,
    symmetry: string,
    fluorescence: string,
    measurements: string,
    origin: string,
    issuedate: string,
    imageurl: Option<string>,
    createdat: nat)

  /** The thirteen parameters bound in an `INSERT INTO certificates`; None is SQL NULL. */
  datatype CertValues = CertValues(
    certificatenumber: Option<string>,
    gemstonetype: Option<string>,
    caratweight: Option<string>,
    color: Option<string>,
    clarity: Option<string>,
    cut: Option<string>,
    polish: Option<string>,
    symmetry: Option<string>,
    fluorescence: Option<string>,
    measurements: Option<string>,
    origin: Option<string>,
    issuedate: Option<string>,
    imageurl: Option<string>)

  /** A parsed request body; None is a key that is absent, `undefined` or `null`. */
  datatype Draft = Draft(
    certificateNumber: Option<string>,
    gemstoneType: Option<string>,
    caratWeight: Option<string>,
    color: Option<string>,
    clarity: Option<string>,
    cut: Option<string>,
    polish: Option<string>,
    symmetry: Option<string>,
    fluorescence: Option<string>,
    measurements: Option<string>,
    origin: Option<string>,
    issueDate: Option<string>,
    imageUrl: Option<string>)

  /** The body `{}` that an unparsable or absent request body becomes. */
  const EmptyDraft := Draft(None, None, None, None, None, None, None, None, None, None, None, None, None)

  /** The camelCase certificate object; seed records carry no `createdAt`. */
  datatype Certificate = Certificate(
    id: nat,
    certificateNumber: string,
    gemstoneType: string,
    caratWeight: string,
    color: string,
    clarity: string,
    cut: string,
    polish: string,
    symmetry: string,
    fluorescence: string,
    measurements: string,
    origin: string,
    issueDate: string,
    imageUrl: Option<string>,
    createdAt: Option<nat>)

  /** A row of `users`. */
  datatype UserRow = UserRow(id: nat, username: string, password: string, createdat: nat)

  /** A `users` row without its `password`. */
  datatype PublicUser = PublicUser(id: nat, username: string, createdat: nat)

  /** JavaScript truthiness of a string-or-missing value: missing and "" are falsy. */
  predicate Falsy(v: Option<string>) { v.None? || v.value == "" }

  /** `a || b` on string-or-missing values: one of its operands, truthy exactly when either side is. */
  function Or(a: Option<string>, b: Option<string>): (r: Option<string>)
    ensures !Falsy(r) <==> !Falsy(a) || !Falsy(b)
    ensures r == a || r == b
  {
    if Falsy(a) then b else a
  }

  /** Reads a column back as a certificate object (the field renaming of the lookup route). */
  function ToCertificate(row: CertRow): (c: Certificate)
    ensures FromCertificate(c) == Some(row)
  {
    Certificate(row.id, row.certificatenumber, row.gemstonetype, row.caratweight, row.color,
      row.clarity, row.cut, row.polish, row.symmetry, row.fluorescence, row.measurements,
      row.origin, row.issuedate, row.imageurl, Some(row.createdat))
  }

  /** The inverse renaming; fails on an object without `createdAt`. */
  function FromCertificate(c: Certificate): (r: Option<CertRow>)
    ensures r.Some? <==> c.createdAt.Some?
  {
    match c.createdAt
    case None => None
    case Some(t) =>
      Some(CertRow(c.id, c.certificateNumber, c.gemstoneType, c.caratWeight, c.color,
        c.clarity, c.cut, c.polish, c.symmetry, c.fluorescence, c.measurements,
        c.origin, c.issueDate, c.imageUrl, t))
  }

  /** The object-rest copy `const { password: _, ...rest } = user`. */
  function WithoutPassword(u: UserRow): (p: PublicUser)
    ensures WithPassword(p, u.password) == u
  {
    PublicUser(u.id, u.username, u.createdat)
  }

  function WithPassword(p: PublicUser, password: string): UserRow
  {
    UserRow(p.id, p.username, password, p.createdat)
  }
}
