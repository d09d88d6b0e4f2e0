/** The in-memory certificate store behind both services: an ordered sequence
    of certificates, searched linearly by identifier, grown only at the end.

    Each HTTP handler runs under one process-wide mutex, so every operation
    here is a single atomic step from the old sequence to the new one. The
    path parameter arrives already parsed (`None` when it is not an integer)
    and the request body already decoded (`Malformed` when decoding failed). */
module Store {
  import opened Wrappers

  /** A stored certificate: the identifier the store manages, and the other
      fields, whose shape depends on the service (`D`). */
  datatype Certificate<D> = Certificate(id: int, details: D)

  /** A request body after JSON decoding. A decoded certificate carries
      whatever `id` the client sent; the store never keeps it. */
  datatype Body<D> = Decoded(cert: Certificate<D>) | Malformed(message: string)

  /** What a single-certificate handler answers. */
  datatype Outcome<D> =
    | Ok(cert: Certificate<D>)
    | NotFound
    | BadId
    | BadBody(message: string)

  /** The store after a handler, and its answer. */
  datatype Reply<D> = Reply(store: seq<Certificate<D>>, outcome: Outcome<D>)

  /** Some certificate in the store carries identifier `id`. */
  ghost predicate HasId<D>(store: seq<Certificate<D>>, id: int) {
    exists i :: 0 <= i < |store| && store[i].id == id
  }

  /** Index `i` holds the first certificate, in insertion order, whose
      identifier is `id`. */
  ghost predicate IsFirstMatch<D>(store: seq<Certificate<D>>, id: int, i: int) {
    && 0 <= i < |store|
    && store[i].id == id
    && forall j :: 0 <= j < i ==> store[j].id != id
  }

  /** The linear scan shared by get and update: the index of the first
      certificate whose identifier is `id`, or `None` when there is none. */
  function FirstIndexOf<D>(store: seq<Certificate<D>>, id: int): (r: Option<nat>)
    ensures r.Some? ==> IsFirstMatch(store, id, r.value)
    ensures r.None? <==> !HasId(store, id)
  {
    if |store| == 0 then None
    else if store[0].id == id then Some(0)
    else
      match FirstIndexOf(store[1..], id)
      case None =>
        assert forall i :: 1 <= i < |store| ==> store[i] == store[1..][i - 1];
        None
      case Some(k) =>
        assert store[k + 1] == store[1..][k];
        assert forall j :: 1 <= j < k + 1 ==> store[j] == store[1..][j - 1];
        Some(k + 1)
  }

  /** Looking up one certificate by its path identifier. */
  function Get<D>(store: seq<Certificate<D>>, pathId: Option<int>): (r: Reply<D>)
    ensures r.store == store
    ensures r.outcome.BadId? <==> pathId.None?
    ensures r.outcome.Ok? || r.outcome.NotFound? || r.outcome.BadId?
    ensures pathId.Some? ==> (r.outcome.NotFound? <==> !HasId(store, pathId.value))
    ensures pathId.Some? ==>
      forall i :: IsFirstMatch(store, pathId.value, i) ==> r.outcome == Ok(store[i])
    ensures r.outcome.Ok? ==>
      pathId.Some? && exists i :: IsFirstMatch(store, pathId.value, i) && r.outcome.cert == store[i]
  {
    match pathId
    case None => Reply(store, BadId)
    case Some(id) =>
      match FirstIndexOf(store, id)
      case None => Reply(store, NotFound)
      case Some(i) => Reply(store, Ok(store[i]))
  }

  /** Adding a certificate: the store assigns the identifier one past the
      current count, whatever the body carried, and appends at the end. */
  function Create<D>(store: seq<Certificate<D>>, body: Body<D>): (r: Reply<D>)
    ensures body.Malformed? ==> r == Reply(store, BadBody(body.message))
    ensures body.Decoded? ==>
      && r.outcome.Ok?
      && r.outcome.cert.id == |store| + 1
      && r.outcome.cert.details == body.cert.details
      && |r.store| == |store| + 1
      && r.store[..|store|] == store
      && r.store[|store|] == r.outcome.cert
  {
    match body
    case Malformed(message) => Reply(store, BadBody(message))
    case Decoded(cert) =>
      var stored := cert.(id := |store| + 1);
      Reply(store + [stored], Ok(stored))
  }

  /** Listing: the whole store, in insertion order. */
  function List<D>(store: seq<Certificate<D>>): (r: seq<Certificate<D>>)
    ensures |r| == |store|
    ensures forall i :: 0 <= i < |r| ==> r[i] == store[i]
  {
    store
  }

  /** Replacing a certificate wholesale. The path identifier is checked
      before the body, and the body before the store is scanned; the first
      certificate with that identifier is overwritten and keeps the path
      identifier, whatever the body carried. */
  function Update<D>(store: seq<Certificate<D>>, pathId: Option<int>, body: Body<D>): (r: Reply<D>)
    ensures |r.store| == |store|
    ensures pathId.None? ==> r == Reply(store, BadId)
    ensures pathId.Some? && body.Malformed? ==> r == Reply(store, BadBody(body.message))
    ensures pathId.Some? && body.Decoded? && !HasId(store, pathId.value) ==>
      r == Reply(store, NotFound)
    ensures pathId.Some? && body.Decoded? ==>
      forall i :: IsFirstMatch(store, pathId.value, i) ==>
        && r.outcome == Ok(Certificate(pathId.value, body.cert.details))
        && r.store[i] == r.outcome.cert
        && (forall j :: 0 <= j < |store| && j != i ==> r.store[j] == store[j])
  {
    match pathId
    case None => Reply(store, BadId)
    case Some(id) =>
      match body
      case Malformed(message) => Reply(store, BadBody(message))
      case Decoded(cert) =>
        match FirstIndexOf(store, id)
        case None => Reply(store, NotFound)
        case Some(i) =>
          var stored := cert.(id := id);
          Reply(store[i := stored], Ok(stored))
  }

  /** One request to the store, as routed by either service. */
  datatype Request<D> =
    | GetRequest(pathId: Option<int>)
    | CreateRequest(body: Body<D>)
    | ListRequest
    | UpdateRequest(pathId: Option<int>, body: Body<D>)

  /** The store after serving one request. */
  function Serve<D>(store: seq<Certificate<D>>, request: Request<D>): seq<Certificate<D>> {
    match request
    case GetRequest(pathId) => Get(store, pathId).store
    case CreateRequest(body) => Create(store, body).store
    case ListRequest => List(store)
    case UpdateRequest(pathId, body) => Update(store, pathId, body).store
  }

  /** The store after serving `requests` one after another. */
  function Run<D>(store: seq<Certificate<D>>, requests: seq<Request<D>>): seq<Certificate<D>>
    decreases |requests|
  {
    if |requests| == 0 then store else Run(Serve(store, requests[0]), requests[1..])
  }

  /** The store invariant: identifiers are exactly 1..n in insertion order. */
  ghost predicate IdsAreIndices<D>(store: seq<Certificate<D>>) {
    forall i :: 0 <= i < |store| ==> store[i].id == i + 1
  }

  /** No two certificates share an identifier. */
  ghost predicate UniqueIds<D>(store: seq<Certificate<D>>) {
    forall i, j :: 0 <= i < |store| && 0 <= j < |store| && store[i].id == store[j].id ==> i == j
  }

  lemma IdsAreIndicesGiveUniqueIds<D>(store: seq<Certificate<D>>)
    requires IdsAreIndices(store)
    ensures UniqueIds(store)
  {
  }

  /** Under the invariant, get(k) finds index k-1 exactly when 1 <= k <= n. */
  lemma GetFindsIndex<D>(store: seq<Certificate<D>>, k: int)
    requires IdsAreIndices(store)
    ensures 1 <= k <= |store| ==> Get(store, Some(k)).outcome == Ok(store[k - 1])
    ensures !(1 <= k <= |store|) ==> Get(store, Some(k)).outcome == NotFound
  {
    if 1 <= k <= |store| {
      assert IsFirstMatch(store, k, k - 1);
    }
  }

  /** Every single request keeps the invariant. */
  lemma ServeKeepsIdsAreIndices<D>(store: seq<Certificate<D>>, request: Request<D>)
    requires IdsAreIndices(store)
    ensures IdsAreIndices(Serve(store, request))
  {
    match request
    case GetRequest(_) =>
    case ListRequest =>
    case CreateRequest(body) =>
      var r := Create(store, body);
      if body.Decoded? {
        assert forall i :: 0 <= i < |store| ==> r.store[i] == r.store[..|store|][i];
      }
    case UpdateRequest(pathId, body) =>
      var r := Update(store, pathId, body);
      if pathId.Some? && body.Decoded? && HasId(store, pathId.value) {
        var i :| 0 <= i < |store| && store[i].id == pathId.value;
        assert IsFirstMatch(store, pathId.value, i);
      }
  }

  /** Starting from a store that satisfies the invariant (the empty store
      does), any sequence of requests keeps it. */
  lemma {:induction false} RunKeepsIdsAreIndices<D>(store: seq<Certificate<D>>, requests: seq<Request<D>>)
    requires IdsAreIndices(store)
    ensures IdsAreIndices(Run(store, requests))
    ensures UniqueIds(Run(store, requests))
    decreases |requests|
  {
    if |requests| > 0 {
      ServeKeepsIdsAreIndices(store, requests[0]);
      RunKeepsIdsAreIndices(Serve(store, requests[0]), requests[1..]);
    } else {
      IdsAreIndicesGiveUniqueIds(store);
    }
  }

  /** Under the invariant, getting the identifier a create just assigned
      returns exactly the submitted fields. */
  lemma GetAfterCreate<D>(store: seq<Certificate<D>>, cert: Certificate<D>)
    requires IdsAreIndices(store)
    ensures Get(Create(store, Decoded(cert)).store, Some(|store| + 1)).outcome
         == Ok(Certificate(|store| + 1, cert.details))
  {
    var r := Create(store, Decoded(cert));
    ServeKeepsIdsAreIndices(store, CreateRequest(Decoded(cert)));
    GetFindsIndex(r.store, |store| + 1);
  }

  /** A successful update is what a following get of the same identifier
      returns, with or without the invariant. */
  lemma GetAfterUpdate<D>(store: seq<Certificate<D>>, id: int, body: Body<D>)
    requires Update(store, Some(id), body).outcome.Ok?
    ensures Get(Update(store, Some(id), body).store, Some(id)).outcome
         == Update(store, Some(id), body).outcome
  {
    var r := Update(store, Some(id), body);
    var i := FirstIndexOf(store, id).value;
    assert IsFirstMatch(r.store, id, i);
  }

  /** Requests that are all well-formed creates append their bodies in
      order, numbered on from the current count. */
  lemma {:induction false} CreatesAppendInOrder<D>(store: seq<Certificate<D>>, requests: seq<Request<D>>)
    requires forall k :: 0 <= k < |requests| ==> requests[k].CreateRequest? && requests[k].body.Decoded?
    ensures |Run(store, requests)| == |store| + |requests|
    ensures Run(store, requests)[..|store|] == store
    ensures forall k :: 0 <= k < |requests| ==>
      Run(store, requests)[|store| + k] == Certificate(|store| + k + 1, requests[k].body.cert.details)
    decreases |requests|
  {
    if |requests| > 0 {
      var next := Serve(store, requests[0]);
      var rest := requests[1..];
      CreatesAppendInOrder(next, rest);
      var out := Run(store, requests);
      assert out == Run(next, rest);
      assert next[..|store|] == store;
      assert out[..|store|] == out[..|next|][..|store|];
      forall k | 0 <= k < |requests|
        ensures out[|store| + k] == Certificate(|store| + k + 1, requests[k].body.cert.details)
      {
        if k == 0 {
          assert out[|store|] == out[..|next|][|store|];
        } else {
          assert rest[k - 1] == requests[k];
        }
      }
    }
  }
}
