/** The answers the certificate handlers send: a status code and a JSON
    payload, which is one certificate, the whole list, or an error object. */
module Http {
  import Store

  const StatusOK := 200
  const StatusCreated := 201
  const StatusBadRequest := 400
  const StatusNotFound := 404

  const InvalidIdMessage := "Invalid certificate ID"
  const NotFoundMessage := "Certificate not found"

  datatype Json<D> =
    | One(cert: Store.Certificate<D>)
    | All(certs: seq<Store.Certificate<D>>)
    | Error(error: string)

  datatype Response<D> = Response(status: int, json: Json<D>)

  /** The response a single-certificate handler sends for `outcome`, where
      `success` is the handler's status for `Ok` (201 for create, 200 for get
      and update). A body that failed to decode is answered with the
      decoder's own error text. */
  function Respond<D>(outcome: Store.Outcome<D>, success: int): Response<D> {
    match outcome
    case Ok(cert) => Response(success, One(cert))
    case NotFound => Response(StatusNotFound, Error(NotFoundMessage))
    case BadId => Response(StatusBadRequest, Error(InvalidIdMessage))
    case BadBody(message) => Response(StatusBadRequest, Error(message))
  }
}
