/** The certificate handlers of TASK_2.go (routed with gin), over its
    eight-field certificate.
    Each handler is the matching store operation followed by the response it
    sends; the path identifier is checked before the body is decoded, and
    both before the store is touched. */
module GinService {
  import opened Wrappers
  import Store
  import Http

  /** Every certificate field except the identifier. */
  datatype Details = Details(
    name: string,
    course: string,
    issuedTo: string,
    issueDate: string,
    expiryDate: string,
    issuer: string,
    content: string)

  type Certificate = Store.Certificate<Details>

  /** The store after a handler, and the response it sent. */
  datatype Handled = Handled(store: seq<Certificate>, response: Http.Response<Details>)

  /** `GET /certificates/{id}`: the first certificate with that identifier. */
  function GetCertificateById(store: seq<Certificate>, pathId: Option<int>): (h: Handled)
    ensures h.store == store
    ensures pathId.None? ==>
      h.response == Http.Response(Http.StatusBadRequest, Http.Error(Http.InvalidIdMessage))
    ensures pathId.Some? && !Store.HasId(store, pathId.value) ==>
      h.response == Http.Response(Http.StatusNotFound, Http.Error(Http.NotFoundMessage))
    ensures pathId.Some? ==> forall i :: Store.IsFirstMatch(store, pathId.value, i) ==>
      h.response == Http.Response(Http.StatusOK, Http.One(store[i]))
  {
    var r := Store.Get(store, pathId);
    Handled(r.store, Http.Respond(r.outcome, Http.StatusOK))
  }

  /** `POST /certificates`: the body is stored last, numbered one past the
      current count. */
  function CreateCertificate(store: seq<Certificate>, body: Store.Body<Details>): (h: Handled)
    ensures body.Malformed? ==>
      h == Handled(store, Http.Response(Http.StatusBadRequest, Http.Error(body.message)))
    ensures body.Decoded? ==>
      && h.store == store + [Store.Certificate(|store| + 1, body.cert.details)]
      && h.response == Http.Response(Http.StatusCreated, Http.One(h.store[|store|]))
  {
    var r := Store.Create(store, body);
    Handled(r.store, Http.Respond(r.outcome, Http.StatusCreated))
  }

  /** `GET /certificates`: every certificate, in insertion order. */
  function GetAllCertificates(store: seq<Certificate>): (h: Handled)
    ensures h.store == store
    ensures h.response.status == Http.StatusOK
    ensures h.response.json.All? && h.response.json.certs == store
  {
    Handled(store, Http.Response(Http.StatusOK, Http.All(Store.List(store))))
  }

  /** `PUT /certificates/{id}`: the first certificate with that identifier
      is replaced by the body, which keeps the path identifier. */
  function UpdateCertificate(store: seq<Certificate>, pathId: Option<int>, body: Store.Body<Details>): (h: Handled)
    ensures pathId.None? ==>
      h == Handled(store, Http.Response(Http.StatusBadRequest, Http.Error(Http.InvalidIdMessage)))
    ensures pathId.Some? && body.Malformed? ==>
      h == Handled(store, Http.Response(Http.StatusBadRequest, Http.Error(body.message)))
    ensures pathId.Some? && body.Decoded? && !Store.HasId(store, pathId.value) ==>
      h == Handled(store, Http.Response(Http.StatusNotFound, Http.Error(Http.NotFoundMessage)))
    ensures pathId.Some? && body.Decoded? ==> forall i :: Store.IsFirstMatch(store, pathId.value, i) ==>
      && h.store == store[i := Store.Certificate(pathId.value, body.cert.details)]
      && h.response == Http.Response(Http.StatusOK, Http.One(h.store[i]))
  {
    var r := Store.Update(store, pathId, body);
    Handled(r.store, Http.Respond(r.outcome, Http.StatusOK))
  }
}
