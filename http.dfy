/** The JSON responses the handlers send: a status code and the body's shape. */
module Http {
  import opened Records

  datatype Body =
    | NoContent                                  // `res.end()` with nothing written
    | EmptyObject                                // `{}`
    | Message(message: string)                   // `{ message }`
    | MessageCause(prefix: string, cause: DbError) // `{ message: prefix + error.message }`
    | Error(error: string)                       // `{ error }`
    | ErrorMessage(error: string, message: string) // `{ error, message }`
    | ErrorCause(error: string, cause: DbError)  // `{ error, message: error.message }`
    | InternalFault                              // the server's last-resort handler
    | CertificateBody(cert: Certificate)         // one camelCase certificate
    | CertificateList(certs: seq<Certificate>)   // an array of camelCase certificates
    | RowBody(row: CertRow)                      // one row as the database returns it
    | RowList(rows: seq<CertRow>)                // rows as the database returns them
    | LoginSuccess(message: string, user: PublicUser)
    | SetupDone(message: string, tables: seq<string>, sampleData: string)

  /** A sent response, or a request that is never answered. */
  datatype Response = Response(status: nat, body: Body) | NoResponse
}
